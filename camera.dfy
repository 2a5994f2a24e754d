/** The camera's integer side: the configuration setters, `partition`, the per-chunk pixel
    loop of `RenderWorker` and the copy of finished chunks into the image in `Render`.
    Workers run on threads and pass chunks through message queues; here the chunks are
    rendered one after the other and the result queue is a sequence drained in order. */
module Cameras {
  import opened Vectors
  import opened Chunks

  /** What `std::thread::hardware_concurrency() == 0 ? 12 : ...` yields. */
  function Fallback(hc: nat): int
  {
    if hc == 0 then 12 else hc
  }

  /** C++ `int / int`: the quotient truncated toward zero. */
  function TruncDiv(a: int, b: int): (q: int)
    requires b != 0
    ensures 0 <= a && 0 < b ==> q == a / b
  {
    var m := (if a < 0 then -a else a) / (if b < 0 then -b else b);
    if (a < 0) == (b < 0) then m else -m
  }

  // ---- one pixel ----

  /** The sum of the first n samples at pixel (j, i); `sample(j, i, k)` is the colour the
      k-th ray through that pixel brings back (rays are random, so samples are a parameter). */
  function SampleSum(sample: (int, int, nat) -> Color, j: int, i: int, n: nat): Color
  {
    if n == 0 then Black else Add(SampleSum(sample, j, i, n - 1), sample(j, i, n - 1))
  }

  /** `pixel_color /= sample_count`. */
  function DivBy(c: Color, n: int): Color
    requires n != 0
  {
    Vec3(c.x / n as real, c.y / n as real, c.z / n as real)
  }

  /** The colour stored for pixel (j, i): the gamma-corrected mean of its samples. */
  function PixelValue(j: int, i: int, n: nat, sample: (int, int, nat) -> Color, gamma: Color -> Color): Color
    requires n > 0
  {
    gamma(DivBy(SampleSum(sample, j, i, n), n))
  }

  /** When every sample is the same colour, their mean is that colour. */
  lemma MeanOfEqualSamples(sample: (int, int, nat) -> Color, j: int, i: int, n: nat, c: Color)
    requires n > 0
    requires forall k :: 0 <= k < n ==> sample(j, i, k) == c
    ensures DivBy(SampleSum(sample, j, i, n), n) == c
  {
    SumOfEqual(sample, j, i, n, c);
    var r := n as real;
    CancelFactor(c.x, r);
    CancelFactor(c.y, r);
    CancelFactor(c.z, r);
  }

  lemma {:induction false} SumOfEqual(sample: (int, int, nat) -> Color, j: int, i: int, n: nat, c: Color)
    requires forall k :: 0 <= k < n ==> sample(j, i, k) == c
    ensures SampleSum(sample, j, i, n) == Scale(c, n as real)
  {
    if n > 0 {
      SumOfEqual(sample, j, i, n - 1, c);
      var r := (n - 1) as real;
      AddOneMore(c.x, r);
      AddOneMore(c.y, r);
      AddOneMore(c.z, r);
    }
  }

  lemma AddOneMore(a: real, r: real)
    ensures a * r + a == a * (r + 1.0)
  {
  }

  lemma CancelFactor(a: real, r: real)
    requires r != 0.0
    ensures a * r / r == a
  {
  }

  // ---- a rendered chunk ----

  /** The rows `RenderWorker` appends to a chunk's `partial`: `height` rows of `width`
      pixel colours each, for the pixels the chunk covers. */
  function RenderedRows(c: ImageChunk, n: nat, sample: (int, int, nat) -> Color, gamma: Color -> Color): (rows: seq<seq<Color>>)
    requires n > 0
    ensures |rows| == Extent(c.height)
    ensures forall r :: 0 <= r < |rows| ==> |rows[r]| == Extent(c.width)
  {
    seq(Extent(c.height), r => seq(Extent(c.width), col => PixelValue(c.startx + col, c.starty + r, n, sample, gamma)))
  }

  /** The chunk as `RenderWorker` sends it back. */
  function Rendered(c: ImageChunk, n: nat, sample: (int, int, nat) -> Color, gamma: Color -> Color): ImageChunk
    requires n > 0
  {
    c.(partial := c.partial + RenderedRows(c, n, sample, gamma))
  }

  // ---- draining the result queue into the image ----

  /** The chunk holds at least `height` rows of at least `width` colours. */
  predicate Shaped(c: ImageChunk)
  {
    |c.partial| >= Extent(c.height) && forall r :: 0 <= r < Extent(c.height) ==> |c.partial[r]| >= Extent(c.width)
  }

  /** The chunk lies inside an image of the given rows and columns and holds its pixels. */
  predicate Placeable(c: ImageChunk, rows: int, cols: int)
  {
    Shaped(c) && 0 <= c.starty && c.starty + Extent(c.height) <= rows && 0 <= c.startx && c.startx + Extent(c.width) <= cols
  }

  /** Every chunk holds its pixels. */
  predicate AllShaped(chunks: seq<ImageChunk>)
  {
    forall c :: c in chunks ==> Shaped(c)
  }

  /** Every chunk lies inside the image and holds its pixels. */
  predicate AllPlaceable(chunks: seq<ImageChunk>, rows: int, cols: int)
  {
    AllShaped(chunks) && forall c :: c in chunks ==> Placeable(c, rows, cols)
  }

  /** Image row i, column j after the chunks are copied in, in order, over the value v:
      the last chunk covering the pixel decides it. */
  function PixelAfter(chunks: seq<ImageChunk>, i: int, j: int, v: Color): Color
    requires AllShaped(chunks)
  {
    if |chunks| == 0 then v
    else
      var last := chunks[|chunks| - 1];
      if Covers(last, j, i) then
        assert Shaped(last);
        last.partial[i - last.starty][j - last.startx]
      else PixelAfter(chunks[..|chunks| - 1], i, j, v)
  }

  /** No pixel lies in two different chunks. */
  ghost predicate Disjoint(chunks: seq<ImageChunk>)
  {
    forall a, b, px, py :: a in chunks && b in chunks && Covers(a, px, py) && Covers(b, px, py) ==> a == b
  }

  /** With disjoint chunks a pixel takes the value of the chunk covering it, or keeps its
      value when none does, whatever the order in which the chunks arrive. */
  lemma {:induction false} DrainDisjoint(chunks: seq<ImageChunk>, i: int, j: int, v: Color)
    requires AllShaped(chunks)
    requires Disjoint(chunks)
    ensures forall c :: c in chunks && Covers(c, j, i) ==> PixelAfter(chunks, i, j, v) == c.partial[i - c.starty][j - c.startx]
    ensures (forall c :: c in chunks ==> !Covers(c, j, i)) ==> PixelAfter(chunks, i, j, v) == v
  {
    if |chunks| > 0 {
      var init := chunks[..|chunks| - 1];
      assert forall c :: c in init ==> c in chunks;
      DrainDisjoint(init, i, j, v);
    }
  }

  /** Draining disjoint chunks in any order gives the same image. */
  lemma DrainOrderIrrelevant(chunks: seq<ImageChunk>, arrival: seq<ImageChunk>, i: int, j: int, v: Color)
    requires AllShaped(chunks)
    requires Disjoint(chunks) && multiset(arrival) == multiset(chunks)
    ensures forall c :: c in arrival ==> Shaped(c)
    ensures PixelAfter(arrival, i, j, v) == PixelAfter(chunks, i, j, v)
  {
    assert forall c :: c in arrival <==> c in multiset(arrival);
    assert forall c :: c in chunks <==> c in multiset(chunks);
    DrainDisjoint(chunks, i, j, v);
    DrainDisjoint(arrival, i, j, v);
    if c :| c in chunks && Covers(c, j, i) {
    }
  }

  /** The grid's chunks, each rendered. */
  function RenderedGrid(w: int, h: int, d: int, n: nat, sample: (int, int, nat) -> Color, gamma: Color -> Color): (g: seq<ImageChunk>)
    requires d > 0 && n > 0
    ensures |g| == |Grid(w, h, d)|
  {
    var grid := Grid(w, h, d);
    seq(|grid|, k requires 0 <= k < |grid| => Rendered(grid[k], n, sample, gamma))
  }

  /** Every rendered chunk of the grid lies inside the image and holds its pixels. */
  lemma RenderedGridPlaceable(w: int, h: int, d: int, n: nat, sample: (int, int, nat) -> Color, gamma: Color -> Color)
    requires d > 0 && n > 0
    ensures AllPlaceable(RenderedGrid(w, h, d, n, sample, gamma), h, w)
  {
    var grid, g := Grid(w, h, d), RenderedGrid(w, h, d, n, sample, gamma);
    GridShaped(w, h, d);
    forall c | c in g
      ensures Shaped(c) && Placeable(c, h, w)
    {
      var k :| 0 <= k < |g| && g[k] == c;
      assert grid[k] in grid;
      assert WellShaped(grid[k], w, h, d);
    }
  }

  /** The rendered chunks of the grid do not overlap. */
  lemma RenderedGridDisjoint(w: int, h: int, d: int, n: nat, sample: (int, int, nat) -> Color, gamma: Color -> Color)
    requires d > 0 && n > 0
    ensures Disjoint(RenderedGrid(w, h, d, n, sample, gamma))
  {
    var grid, g := Grid(w, h, d), RenderedGrid(w, h, d, n, sample, gamma);
    forall a, b, px, py | a in g && b in g && Covers(a, px, py) && Covers(b, px, py)
      ensures a == b
    {
      var k :| 0 <= k < |g| && g[k] == a;
      var l :| 0 <= l < |g| && g[l] == b;
      assert Covers(grid[k], px, py) && Covers(grid[l], px, py);
      GridShaped(w, h, d);
      assert grid[k] in grid;
      assert WellShaped(grid[k], w, h, d);
      GridTiles(w, h, d, px, py);
    }
  }

  /** Partitioning, rendering every chunk and draining them all sets every pixel of the
      image to its own colour: each pixel is rendered exactly once. */
  lemma RenderedGridPaints(w: int, h: int, d: int, n: nat, sample: (int, int, nat) -> Color, gamma: Color -> Color,
                           i: int, j: int, v: Color)
    requires d > 0 && n > 0 && 0 <= i < h && 0 <= j < w
    ensures AllPlaceable(RenderedGrid(w, h, d, n, sample, gamma), h, w)
    ensures PixelAfter(RenderedGrid(w, h, d, n, sample, gamma), i, j, v) == PixelValue(j, i, n, sample, gamma)
  {
    var g := RenderedGrid(w, h, d, n, sample, gamma);
    RenderedGridPlaceable(w, h, d, n, sample, gamma);
    RenderedGridDisjoint(w, h, d, n, sample, gamma);
    var c := CoveringRenderedChunk(w, h, d, n, sample, gamma, i, j);
    DrainDisjoint(g, i, j, v);
  }

  /** Some rendered chunk of the grid covers pixel (i, j) and holds its colour. */
  lemma CoveringRenderedChunk(w: int, h: int, d: int, n: nat, sample: (int, int, nat) -> Color, gamma: Color -> Color,
                              i: int, j: int) returns (c: ImageChunk)
    requires d > 0 && n > 0 && 0 <= i < h && 0 <= j < w
    ensures c in RenderedGrid(w, h, d, n, sample, gamma) && Covers(c, j, i) && Shaped(c)
    ensures c.partial[i - c.starty][j - c.startx] == PixelValue(j, i, n, sample, gamma)
  {
    var grid, g := Grid(w, h, d), RenderedGrid(w, h, d, n, sample, gamma);
    GridTiles(w, h, d, j, i);
    var k :| 0 <= k < |grid| && Covers(grid[k], j, i);
    GridShaped(w, h, d);
    assert grid[k] in grid;
    RenderedPixel(grid[k], n, sample, gamma, i, j);
    c := g[k];
    RenderedGridPlaceable(w, h, d, n, sample, gamma);
  }

  /** A rendered chunk holds, at each pixel it covers, that pixel's colour. */
  lemma RenderedPixel(c: ImageChunk, n: nat, sample: (int, int, nat) -> Color, gamma: Color -> Color, i: int, j: int)
    requires n > 0 && c.partial == [] && Covers(c, j, i)
    ensures Rendered(c, n, sample, gamma).partial[i - c.starty][j - c.startx] == PixelValue(j, i, n, sample, gamma)
  {
  }

  /** One chunk of the inner loop of `partition`: appending it to the queue consumes the
      head of the rest of the row. */
  lemma RowFromStep(queue: seq<ImageChunk>, w: int, h: int, d: int, x: int, y: int, idx: int)
    requires d > 0 && x < w
    ensures queue + [ImageChunk(x, y, idx, if x + d > w then w % d else d, if y + d > h then h % d else d, [])] + RowFrom(w, h, d, x + d, y, idx + 1)
            == queue + RowFrom(w, h, d, x, y, idx)
  {
  }

  /** One row of the outer loop of `partition`: once the row is queued, the rest of the
      rows follow it. */
  lemma RowsFromStep(rowStart: seq<ImageChunk>, queue: seq<ImageChunk>, w: int, h: int, d: int, y: int, idx: int)
    requires d > 0 && y < h
    requires queue == rowStart + RowFrom(w, h, d, 0, y, idx)
    ensures queue + RowsFrom(w, h, d, y + d, idx + (|queue| - |rowStart|)) == rowStart + RowsFrom(w, h, d, y, idx)
  {
    var row := RowFrom(w, h, d, 0, y, idx);
    var rest := RowsFrom(w, h, d, y + d, idx + |row|);
    assert RowsFrom(w, h, d, y, idx) == row + rest;
    assert rowStart + row + rest == rowStart + (row + rest);
  }

  /** The default chunk dimension `width / render_thread_count` is positive exactly when the
      width reaches the thread count; below it the dimension is 0 and `partition` does not
      end on an image with rows. */
  lemma DefaultDimensionPositive(width: int, hc: nat)
    requires width >= 0
    ensures TruncDiv(width, Fallback(hc)) > 0 <==> width >= Fallback(hc)
  {
    var n := Fallback(hc);
    if width >= n {
      assert width / n >= 1;
    }
  }

  /** The camera's rendering configuration. Only the integer fields the code below reads
      or sets are modelled; `height` is the truncated `width / aspect_ratio`. */
  class Camera {
    var width: int
    var height: int
    var sampleCount: int
    var renderDepth: int
    var renderThreadCount: int
    var chunkDimension: int

    /** A thread count of 0 is never stored, so `setChunkDimension` can divide by it. */
    predicate Valid()
      reads this
    {
      renderThreadCount != 0
    }

    /** `Camera(width, ...)`, with the header's field defaults; `hc` is what
        `std::thread::hardware_concurrency()` reports. */
    constructor (width: int, height: int, hc: nat)
      ensures Valid()
      ensures this.width == width && this.height == height && sampleCount == 20 && renderDepth == 50
      ensures renderThreadCount == Fallback(hc)
      ensures chunkDimension == (if TruncDiv(width, Fallback(hc)) < 0 then width else TruncDiv(width, Fallback(hc)))
    {
      this.width := width;
      this.height := height;
      sampleCount := 20;
      renderDepth := 50;
      renderThreadCount := Fallback(hc);
      chunkDimension := if TruncDiv(width, Fallback(hc)) < 0 then width else TruncDiv(width, Fallback(hc));
    }

    /** `setRenderThreadCount`: a count of 0, or one above the width or the height, falls
        back to the hardware concurrency (12 when that is unknown). */
    method SetRenderThreadCount(n: int, hc: nat)
      modifies this`renderThreadCount
      ensures Valid()
      ensures n != 0 && n <= width && n <= height ==> renderThreadCount == n
      ensures n == 0 || n > width || n > height ==> renderThreadCount == Fallback(hc)
    {
      if n == 0 || n > width || n > height {
        renderThreadCount := Fallback(hc);
      } else {
        renderThreadCount := n;
      }
    }

    /** The integer part of `setWidth`: the new width and the height derived from it are
        stored, and a thread count above either falls back to the hardware concurrency. */
    method SetWidth(w: int, newHeight: int, hc: nat)
      requires Valid()
      modifies this`width, this`height, this`renderThreadCount
      ensures Valid()
      ensures width == w && height == newHeight
      ensures old(renderThreadCount) > w || old(renderThreadCount) > newHeight ==> renderThreadCount == Fallback(hc)
      ensures old(renderThreadCount) <= w && old(renderThreadCount) <= newHeight ==> renderThreadCount == old(renderThreadCount)
    {
      width := w;
      height := newHeight;
      if renderThreadCount > width || renderThreadCount > height {
        renderThreadCount := Fallback(hc);
      }
    }

    /** `setChunkDimension`: a dimension above the width or the height falls back to
        `width / render_thread_count`. */
    method SetChunkDimension(dimension: int)
      requires Valid()
      modifies this`chunkDimension
      ensures dimension <= width && dimension <= height ==> chunkDimension == dimension
      ensures dimension > width || dimension > height ==> chunkDimension == TruncDiv(width, renderThreadCount)
    {
      chunkDimension := if dimension > width || dimension > height then TruncDiv(width, renderThreadCount) else dimension;
    }

    /** `partition`: the chunks pushed to the task queue, in order, and their number. The
        loops only end when the dimension is positive or there are no rows. */
    method Partition() returns (count: int, queue: seq<ImageChunk>)
      requires chunkDimension > 0 || height <= 0
      ensures height <= 0 ==> queue == []
      ensures chunkDimension > 0 ==> queue == Grid(width, height, chunkDimension)
      ensures count == |queue|
    {
      var upperleftX, upperleftY, idx := 0, 0, 0;
      queue := [];
      while upperleftY < height
        invariant upperleftX == 0 && idx == |queue|
        invariant height <= 0 ==> queue == []
        invariant chunkDimension > 0 ==> queue + RowsFrom(width, height, chunkDimension, upperleftY, idx) == Grid(width, height, chunkDimension)
        decreases height - upperleftY
      {
        var d := chunkDimension;
        ghost var rowStart, idx0 := queue, idx;
        while upperleftX < width
          invariant idx == |queue|
          invariant queue + RowFrom(width, height, d, upperleftX, upperleftY, idx) == rowStart + RowFrom(width, height, d, 0, upperleftY, idx0)
          decreases width - upperleftX
        {
          var chunkWidth := if upperleftX + d > width then width % d else d;
          var chunkHeight := if upperleftY + d > height then height % d else d;
          var chunk := ImageChunk(upperleftX, upperleftY, idx, chunkWidth, chunkHeight, []);
          RowFromStep(queue, width, height, d, upperleftX, upperleftY, idx);
          idx := idx + 1;
          queue := queue + [chunk];
          upperleftX := upperleftX + d;
        }
        RowsFromStep(rowStart, queue, width, height, d, upperleftY, idx0);
        upperleftX := 0;
        upperleftY := upperleftY + d;
      }
      count := idx;
    }

    /** The sample loop for one pixel of `RenderWorker`. */
    method PixelColor(j: int, i: int, sample: (int, int, nat) -> Color, gamma: Color -> Color) returns (c: Color)
      requires sampleCount > 0
      ensures c == PixelValue(j, i, sampleCount, sample, gamma)
    {
      var pixel := Black;
      var k := 0;
      while k < sampleCount
        invariant 0 <= k <= sampleCount
        invariant pixel == SampleSum(sample, j, i, k)
      {
        pixel := Add(pixel, sample(j, i, k));
        k := k + 1;
      }
      pixel := DivBy(pixel, sampleCount);
      c := gamma(pixel);
    }

    /** `RenderWorker` on one chunk: `height` rows of `width` pixels appended to `partial`. */
    method RenderChunk(chunk: ImageChunk, sample: (int, int, nat) -> Color, gamma: Color -> Color) returns (done: ImageChunk)
      requires sampleCount > 0
      ensures done == Rendered(chunk, sampleCount, sample, gamma)
    {
      ghost var rows := RenderedRows(chunk, sampleCount, sample, gamma);
      done := chunk;
      var i := chunk.starty;
      while i < chunk.starty + chunk.height
        invariant chunk.starty <= i <= chunk.starty + Extent(chunk.height)
        invariant done == chunk.(partial := chunk.partial + rows[..i - chunk.starty])
      {
        var hori: seq<Color> := [];
        var j := chunk.startx;
        while j < chunk.startx + chunk.width
          invariant chunk.startx <= j <= chunk.startx + Extent(chunk.width)
          invariant hori == rows[i - chunk.starty][..j - chunk.startx]
        {
          var pixel := PixelColor(j, i, sample, gamma);
          hori := hori + [pixel];
          j := j + 1;
        }
        assert hori == rows[i - chunk.starty];
        done := done.(partial := done.partial + [hori]);
        assert rows[..i + 1 - chunk.starty] == rows[..i - chunk.starty] + [hori];
        i := i + 1;
      }
      assert rows[..i - chunk.starty] == rows;
    }

    /** The drain loop of `Render`: every pixel of each arriving chunk is copied to the
        image at the chunk's offset. */
    method Drain(image: array2<Color>, chunks: seq<ImageChunk>)
      requires AllPlaceable(chunks, image.Length0, image.Length1)
      modifies image
      ensures forall a, b :: 0 <= a < image.Length0 && 0 <= b < image.Length1 ==>
                image[a, b] == PixelAfter(chunks, a, b, old(image[a, b]))
    {
      var q := 0;
      while q < |chunks|
        invariant 0 <= q <= |chunks|
        invariant AllShaped(chunks[..q])
        invariant forall a, b :: 0 <= a < image.Length0 && 0 <= b < image.Length1 ==>
                    image[a, b] == PixelAfter(chunks[..q], a, b, old(image[a, b]))
      {
        var chunk := chunks[q];
        assert chunk in chunks;
        CopyChunk(image, chunk);
        assert chunks[..q + 1][..q] == chunks[..q];
        q := q + 1;
      }
      assert chunks[..q] == chunks;
    }

    /** Copying one chunk: the pixels it covers take its values, the others keep theirs. */
    method CopyChunk(image: array2<Color>, chunk: ImageChunk)
      requires Placeable(chunk, image.Length0, image.Length1)
      modifies image
      ensures forall a, b :: 0 <= a < image.Length0 && 0 <= b < image.Length1 ==>
                image[a, b] == (if Covers(chunk, b, a) then chunk.partial[a - chunk.starty][b - chunk.startx] else old(image[a, b]))
    {
      var i := chunk.starty;
      while i < chunk.starty + chunk.height
        invariant chunk.starty <= i <= chunk.starty + Extent(chunk.height)
        invariant forall a, b :: 0 <= a < image.Length0 && 0 <= b < image.Length1 ==>
                    image[a, b] == (if Covers(chunk, b, a) && a < i then chunk.partial[a - chunk.starty][b - chunk.startx]
                                    else old(image[a, b]))
      {
        var j := chunk.startx;
        while j < chunk.startx + chunk.width
          invariant chunk.startx <= j <= chunk.startx + Extent(chunk.width)
          invariant forall a, b :: 0 <= a < image.Length0 && 0 <= b < image.Length1 ==>
                      image[a, b] == (if Covers(chunk, b, a) && (a < i || (a == i && b < j))
                                      then chunk.partial[a - chunk.starty][b - chunk.startx]
                                      else old(image[a, b]))
        {
          image[i, j] := chunk.partial[i - chunk.starty][j - chunk.startx];
          j := j + 1;
        }
        i := i + 1;
      }
    }

    /** `Render` without threads: partition, render every chunk, drain the results into a
        `height` x `width` image. Every pixel ends up with its own colour. */
    method Render(sample: (int, int, nat) -> Color, gamma: Color -> Color) returns (image: array2<Color>)
      requires chunkDimension > 0 && sampleCount > 0 && width >= 0 && height >= 0
      ensures fresh(image) && image.Length0 == height && image.Length1 == width
      ensures forall i, j :: 0 <= i < height && 0 <= j < width ==> image[i, j] == PixelValue(j, i, sampleCount, sample, gamma)
    {
      var part, tasks := Partition();
      ghost var g := RenderedGrid(width, height, chunkDimension, sampleCount, sample, gamma);
      var results: seq<ImageChunk> := [];
      var k := 0;
      while k < |tasks|
        invariant 0 <= k <= |tasks| == |g|
        invariant results == g[..k]
      {
        var done := RenderChunk(tasks[k], sample, gamma);
        assert done == g[k];
        results := results + [done];
        k := k + 1;
      }
      assert results == g;
      RenderedGridPlaceable(width, height, chunkDimension, sampleCount, sample, gamma);
      forall i, j | 0 <= i < height && 0 <= j < width
        ensures PixelAfter(g, i, j, Black) == PixelValue(j, i, sampleCount, sample, gamma)
      {
        RenderedGridPaints(width, height, chunkDimension, sampleCount, sample, gamma, i, j, Black);
      }
      image := new Color[height, width]((i, j) => Black);
      Drain(image, results);
    }
  }
}
