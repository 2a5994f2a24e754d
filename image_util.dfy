/** The integer and string utilities next to the image output: `split`, `clamp`,
    `Image::pixelData`'s offset into the loaded pixel buffer and the text layout of
    `makeGrayscaleString`. */
module ImageUtil {
  import opened Vectors
  import opened Chunks

  // ---- split ----

  /** What `std::string::find` reports: `npos`, or the index of a match. */
  datatype Position = NotFound | At(index: nat)

  /** d occurs in s starting at index k. */
  predicate OccursAt(s: string, d: string, k: int)
  {
    0 <= k && k + |d| <= |s| && s[k..k + |d|] == d
  }

  /** d occurs somewhere in s. */
  ghost predicate Contains(s: string, d: string)
  {
    exists k :: OccursAt(s, d, k)
  }

  /** The first index at or after `from` at which d occurs in s. */
  function FindFrom(s: string, d: string, from: nat): (p: Position)
    ensures p.At? ==> from <= p.index && OccursAt(s, d, p.index)
    ensures p.At? ==> forall k :: from <= k < p.index ==> !OccursAt(s, d, k)
    ensures p.NotFound? ==> forall k :: from <= k ==> !OccursAt(s, d, k)
    decreases |s| - from
  {
    if from + |d| > |s| then NotFound
    else if s[from..from + |d|] == d then At(from)
    else FindFrom(s, d, from + 1)
  }

  /** `s.find(d)`. */
  function Find(s: string, d: string): Position
  {
    FindFrom(s, d, 0)
  }

  /** The tokens `split(s, d)` returns: the text before each match of d, matches taken
      left to right without overlap. */
  function Tokens(s: string, d: string): seq<string>
    requires |d| > 0
    decreases |s|
  {
    match Find(s, d)
    case NotFound => []
    case At(p) => [s[..p]] + Tokens(s[p + |d|..], d)
  }

  /** What `split` drops: the text after the last match. */
  function Rest(s: string, d: string): string
    requires |d| > 0
    decreases |s|
  {
    match Find(s, d)
    case NotFound => s
    case At(p) => Rest(s[p + |d|..], d)
  }

  /** Each token followed by the delimiter, concatenated. */
  function JoinEach(tokens: seq<string>, d: string): string
  {
    if |tokens| == 0 then [] else tokens[0] + d + JoinEach(tokens[1..], d)
  }

  /** `split`: find the delimiter, keep the text before it, erase through it, repeat. An
      empty delimiter is always found at 0 and erases nothing, so the loop would not end. */
  method Split(str: string, delimiter: string) returns (ret: seq<string>)
    requires |delimiter| > 0
    ensures ret == Tokens(str, delimiter)
  {
    ret := [];
    var strOp := str;
    var pos := Find(strOp, delimiter);
    while pos.At?
      invariant pos == Find(strOp, delimiter)
      invariant ret + Tokens(strOp, delimiter) == Tokens(str, delimiter)
      decreases |strOp|
    {
      var token := strOp[..pos.index];
      SplitAtMatch(strOp, delimiter, pos.index);
      ghost var tail := strOp[pos.index + |delimiter|..];
      assert ret + [token] + Tokens(tail, delimiter) == ret + ([token] + Tokens(tail, delimiter));
      ret := ret + [token];
      strOp := strOp[pos.index + |delimiter|..];
      pos := Find(strOp, delimiter);
    }
    NoMatchNoTokens(strOp, delimiter);
    assert ret + [] == ret;
  }

  /** Without a match, `split` has nothing to return. */
  lemma NoMatchNoTokens(s: string, d: string)
    requires |d| > 0 && Find(s, d).NotFound?
    ensures Tokens(s, d) == [] && Rest(s, d) == s
  {
  }

  /** No token contains the delimiter. */
  lemma {:induction false} TokensClean(s: string, d: string)
    requires |d| > 0
    ensures forall t :: t in Tokens(s, d) ==> !Contains(t, d)
    decreases |s|
  {
    match Find(s, d)
    case NotFound =>
    case At(p) =>
      TokensClean(s[p + |d|..], d);
      forall k | OccursAt(s[..p], d, k)
        ensures false
      {
        assert s[..p][k..k + |d|] == s[k..k + |d|];
        assert OccursAt(s, d, k);
      }
  }

  /** The tokens, each followed by the delimiter, and then the dropped rest give back the
      input. */
  lemma {:induction false} TokensReassemble(s: string, d: string)
    requires |d| > 0
    ensures s == JoinEach(Tokens(s, d), d) + Rest(s, d)
    decreases |s|
  {
    match Find(s, d)
    case NotFound =>
    case At(p) =>
      var head, tail := s[..p], s[p + |d|..];
      TokensReassemble(tail, d);
      SplitAtMatch(s, d, p);
      JoinCons(head, Tokens(tail, d), d);
      Reassociate(head, d, JoinEach(Tokens(tail, d), d), Rest(tail, d));
  }

  /** Where d is first found at p, `split` keeps the text before p and goes on after the
      match. */
  lemma SplitAtMatch(s: string, d: string, p: nat)
    requires |d| > 0 && Find(s, d) == At(p)
    ensures Tokens(s, d) == [s[..p]] + Tokens(s[p + |d|..], d)
    ensures Rest(s, d) == Rest(s[p + |d|..], d)
    ensures s == s[..p] + d + s[p + |d|..]
  {
    MatchSplits(s, d, p);
  }

  lemma MatchSplits(s: string, d: string, p: nat)
    requires OccursAt(s, d, p)
    ensures s == s[..p] + d + s[p + |d|..]
  {
    assert s == s[..p] + s[p..p + |d|] + s[p + |d|..];
  }

  lemma JoinCons(t: string, ts: seq<string>, d: string)
    ensures JoinEach([t] + ts, d) == t + d + JoinEach(ts, d)
  {
    assert ([t] + ts)[1..] == ts;
  }

  lemma Reassociate(a: string, b: string, c: string, e: string)
    ensures a + b + c + e == a + b + (c + e)
  {
  }

  /** The dropped rest holds no delimiter. */
  lemma {:induction false} RestClean(s: string, d: string)
    requires |d| > 0
    ensures !Contains(Rest(s, d), d)
    decreases |s|
  {
    match Find(s, d)
    case NotFound =>
    case At(p) =>
      RestClean(s[p + |d|..], d);
  }

  /** `split` returns no token exactly when the delimiter does not occur. */
  lemma NoDelimiterNoTokens(s: string, d: string)
    requires |d| > 0
    ensures Tokens(s, d) == [] <==> !Contains(s, d)
  {
    if Contains(s, d) {
      var k :| OccursAt(s, d, k);
      assert Find(s, d).At?;
    }
  }

  // ---- clamp and pixelData ----

  /** `clamp(x, low, high)` as written: above `high` gives `high - 1`, but `high` itself
      is returned unchanged. */
  function Clamp(x: int, low: int, high: int): int
  {
    if x > high then high - 1 else if x < low then low else x
  }

  /** The result lies in [low, high] (not [low, high)), and is `high` exactly when x is. */
  lemma ClampRange(x: int, low: int, high: int)
    requires low < high
    ensures low <= Clamp(x, low, high) <= high
    ensures Clamp(x, low, high) == high <==> x == high
    ensures low <= x < high ==> Clamp(x, low, high) == x
  {
  }

  /** `clamp` as its `high - 1` branch shows it is meant: into the index range [low, high). */
  function ClampIndex(x: int, low: int, high: int): (r: int)
    ensures low < high ==> low <= r < high
    ensures low <= x < high ==> r == x
  {
    if x >= high then high - 1 else if x < low then low else x
  }

  const BytesPerPixel: int := 3

  /** `{255, 0, 255}`, returned when no image is loaded. */
  const MagentaBytes: seq<bv8> := [255, 0, 255]

  /** `data`: a null pointer, or the bytes `stbi_load` returned. */
  datatype Pixels = Null | Buffer(bytes: seq<bv8>)

  /** The fields of `Image` that `pixelData` reads. */
  datatype Image = Image(data: Pixels, width: int, height: int, bytesPerScanline: int)

  /** What `load` leaves behind: `bytes_per_scanline = img_width * bytes_per_pixel`, and a
      loaded buffer holds `width * height` pixels of three bytes. */
  predicate Loaded(img: Image)
  {
    img.bytesPerScanline == img.width * BytesPerPixel &&
    (img.data.Buffer? ==> img.width > 0 && img.height > 0 && |img.data.bytes| == img.width * img.height * BytesPerPixel)
  }

  /** What `pixelData` returns: the magenta constant, or an offset into `data`. */
  datatype PixelRef = Magenta | Offset(n: int)

  /** `pixelData(x, y)` as written, with the off-by-one `clamp`. */
  function PixelDataAsWritten(img: Image, x: int, y: int): (r: PixelRef)
    ensures r.Magenta? <==> img.data.Null?
  {
    if img.data.Null? then Magenta
    else Offset(Clamp(y, 0, img.height) * img.bytesPerScanline + Clamp(x, 0, img.width) * BytesPerPixel)
  }

  /** A 2 x 2 image asked for pixel (2, 2): the offset is 18, past the 12-byte buffer. */
  lemma PixelDataPastEndAsWritten()
    ensures var img := Image(Buffer(seq(12, k => 0)), 2, 2, 6);
            Loaded(img) && PixelDataAsWritten(img, 2, 2) == Offset(18) && 18 + BytesPerPixel > |img.data.bytes|
  {
  }

  /** `pixelData(x, y)` with the clamp into [0, width) and [0, height). */
  function PixelData(img: Image, x: int, y: int): (r: PixelRef)
    ensures r.Magenta? <==> img.data.Null?
  {
    if img.data.Null? then Magenta
    else Offset(ClampIndex(y, 0, img.height) * img.bytesPerScanline + ClampIndex(x, 0, img.width) * BytesPerPixel)
  }

  /** Every pixel the corrected `pixelData` returns lies inside the buffer. */
  lemma PixelDataInBounds(img: Image, x: int, y: int)
    requires Loaded(img) && img.data.Buffer?
    ensures PixelData(img, x, y).Offset?
    ensures 0 <= PixelData(img, x, y).n && PixelData(img, x, y).n + BytesPerPixel <= |img.data.bytes|
  {
    var w, h := img.width, img.height;
    var cx, cy := ClampIndex(x, 0, w), ClampIndex(y, 0, h);
    MulMonotone(cy, h - 1, w * 3);
    MulMonotone(0, cy, w * 3);
    assert (h - 1) * (w * 3) == w * h * 3 - w * 3;
  }

  /** Inside the image, the corrected `pixelData` points at pixel (x, y) in row-major
      order. */
  lemma PixelDataRowMajor(img: Image, x: int, y: int)
    requires Loaded(img) && img.data.Buffer? && 0 <= x < img.width && 0 <= y < img.height
    ensures PixelData(img, x, y) == Offset((y * img.width + x) * BytesPerPixel)
  {
  }

  lemma MulMonotone(a: int, b: int, c: int)
    requires a <= b && 0 <= c
    ensures a * c <= b * c
  {
    assert b * c - a * c == (b - a) * c;
  }

  // ---- makeGrayscaleString ----

  /** `grayscale`: the characters `getGreyScaleCharacter` draws from, darkest first. */
  const Palette: string := " .:-=+*#%@"

  /** One line of the text: a character per pixel of the row, then a newline. */
  function Line(row: seq<Color>, width: int, shade: Color -> char): string
    requires width <= |row|
  {
    seq(Extent(width), j requires 0 <= j < Extent(width) => shade(row[j])) + "\n"
  }

  /** The first n lines of the text. */
  function Text(img: seq<seq<Color>>, width: int, n: nat, shade: Color -> char): string
    requires n <= |img| && forall i :: 0 <= i < n ==> width <= |img[i]|
  {
    if n == 0 then "" else Text(img, width, n - 1, shade) + Line(img[n - 1], width, shade)
  }

  /** `makeGrayscaleString`: row by row, one character per pixel and a newline per row;
      `shade` is `getGreyScaleCharacter`. */
  method MakeGrayscaleString(width: int, height: int, img: seq<seq<Color>>, shade: Color -> char) returns (s: string)
    requires height <= |img| && forall i :: 0 <= i < height ==> width <= |img[i]|
    ensures s == Text(img, width, Extent(height), shade)
  {
    s := "";
    var i := 0;
    while i < height
      invariant 0 <= i <= Extent(height)
      invariant s == Text(img, width, i, shade)
    {
      ghost var before := s;
      var j := 0;
      while j < width
        invariant 0 <= j <= Extent(width)
        invariant s == before + seq(j, k requires 0 <= k < j => shade(img[i][k]))
      {
        s := s + [shade(img[i][j])];
        j := j + 1;
      }
      s := s + "\n";
      i := i + 1;
    }
  }

  /** The text has n lines of `width` characters and a newline each. */
  lemma {:induction false} TextLength(img: seq<seq<Color>>, width: int, n: nat, shade: Color -> char)
    requires n <= |img| && forall i :: 0 <= i < n ==> width <= |img[i]|
    ensures |Text(img, width, n, shade)| == n * (Extent(width) + 1)
  {
    if n > 0 {
      TextLength(img, width, n - 1, shade);
    }
  }

  /** Character j of line i is the shade of pixel (i, j), and the line ends in a newline. */
  lemma {:induction false} TextAt(img: seq<seq<Color>>, width: int, n: nat, shade: Color -> char, i: int, j: int)
    requires n <= |img| && forall r :: 0 <= r < n ==> width <= |img[r]|
    requires 0 <= i < n && 0 <= j <= Extent(width)
    ensures i * (Extent(width) + 1) + j < |Text(img, width, n, shade)|
    ensures Text(img, width, n, shade)[i * (Extent(width) + 1) + j] == (if j < Extent(width) then shade(img[i][j]) else '\n')
  {
    var w1 := Extent(width) + 1;
    TextLength(img, width, n - 1, shade);
    TextLength(img, width, n, shade);
    if i < n - 1 {
      TextAt(img, width, n - 1, shade, i, j);
    } else {
      assert i * w1 == |Text(img, width, n - 1, shade)|;
    }
  }

  /** With `shade` drawing from the palette, the text holds palette characters and
      newlines only. */
  lemma {:induction false} TextAlphabet(img: seq<seq<Color>>, width: int, n: nat, shade: Color -> char)
    requires n <= |img| && forall i :: 0 <= i < n ==> width <= |img[i]|
    requires forall c :: shade(c) in Palette
    ensures forall k :: 0 <= k < |Text(img, width, n, shade)| ==>
              Text(img, width, n, shade)[k] == '\n' || Text(img, width, n, shade)[k] in Palette
  {
    if n > 0 {
      TextAlphabet(img, width, n - 1, shade);
    }
  }
}
