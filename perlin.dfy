/** The algebraic helpers of the Perlin noise generator: the gradient dot product selected
    by a hash, the quintic fade curve and linear interpolation. */
module Perlin {
  import opened Vectors

  /** `hash & 0xF` for a two's-complement int is its remainder modulo 16, which Dafny's
      Euclidean `%` computes for negative hashes too. */
  function LowNibble(hash: int): (n: int)
    ensures 0 <= n < 16
  {
    hash % 16
  }

  /** `Perlin::gradientDotProd`: the dot product of pt with one of twelve edge gradients
      of the cube, chosen by the hash's low four bits (the last four repeat earlier ones). */
  function GradientDotProd(hash: int, pt: Vec3): real
  {
    var x, y, z := pt.x, pt.y, pt.z;
    match LowNibble(hash)
    case 0x0 => x + y
    case 0x1 => -x + y
    case 0x2 => x - y
    case 0x3 => -x - y
    case 0x4 => x + z
    case 0x5 => -x + z
    case 0x6 => x - z
    case 0x7 => -x - z
    case 0x8 => y + z
    case 0x9 => -y + z
    case 0xA => y - z
    case 0xB => -y - z
    case 0xC => y + x
    case 0xD => -y + z
    case 0xE => y - x
    case 0xF => -y - z
  }

  /** The gradient table as vectors: every entry has two components in {-1, 1} and one 0. */
  function Gradient(n: int): (g: Vec3)
    requires 0 <= n < 16
  {
    match n
    case 0x0 => Vec3(1.0, 1.0, 0.0)
    case 0x1 => Vec3(-1.0, 1.0, 0.0)
    case 0x2 => Vec3(1.0, -1.0, 0.0)
    case 0x3 => Vec3(-1.0, -1.0, 0.0)
    case 0x4 => Vec3(1.0, 0.0, 1.0)
    case 0x5 => Vec3(-1.0, 0.0, 1.0)
    case 0x6 => Vec3(1.0, 0.0, -1.0)
    case 0x7 => Vec3(-1.0, 0.0, -1.0)
    case 0x8 => Vec3(0.0, 1.0, 1.0)
    case 0x9 => Vec3(0.0, -1.0, 1.0)
    case 0xA => Vec3(0.0, 1.0, -1.0)
    case 0xB => Vec3(0.0, -1.0, -1.0)
    case 0xC => Vec3(1.0, 1.0, 0.0)
    case 0xD => Vec3(0.0, -1.0, 1.0)
    case 0xE => Vec3(-1.0, 1.0, 0.0)
    case 0xF => Vec3(0.0, -1.0, -1.0)
  }

  /** The switch computes the dot product with the gradient of the hash's low nibble. */
  lemma GradientDotProdIsDot(hash: int, pt: Vec3)
    ensures GradientDotProd(hash, pt) == Dot(Gradient(LowNibble(hash)), pt)
  {
  }

  /** Only the low four bits of the hash matter. */
  lemma GradientDotProdPeriodic(hash: int, k: int, pt: Vec3)
    ensures GradientDotProd(hash + 16 * k, pt) == GradientDotProd(hash, pt)
  {
    assert (hash + 16 * k) % 16 == hash % 16;
  }

  /** Cases 0xC, 0xD and 0xF repeat cases 0x0, 0x9 and 0xB. */
  lemma RepeatedGradients(pt: Vec3)
    ensures GradientDotProd(0xC, pt) == GradientDotProd(0x0, pt)
    ensures GradientDotProd(0xD, pt) == GradientDotProd(0x9, pt)
    ensures GradientDotProd(0xF, pt) == GradientDotProd(0xB, pt)
  {
  }

  /** `Perlin::fade`: 6t^5 - 15t^4 + 10t^3, which fixes 0 and 1 and is point-symmetric
      about (1/2, 1/2). */
  function Fade(t: real): (r: real)
    ensures t == 0.0 ==> r == 0.0
    ensures t == 1.0 ==> r == 1.0
  {
    t * t * t * (t * (t * 6.0 - 15.0) + 10.0)
  }

  lemma FadeSymmetric(t: real)
    ensures Fade(1.0 - t) == 1.0 - Fade(t)
  {
    var s := 1.0 - t;
    assert t * t * t * (t * (t * 6.0 - 15.0) + 10.0) == 6.0 * t * t * t * t * t - 15.0 * t * t * t * t + 10.0 * t * t * t;
    assert s * s * s * (s * (s * 6.0 - 15.0) + 10.0) == 6.0 * s * s * s * s * s - 15.0 * s * s * s * s + 10.0 * s * s * s;
  }

  /** `Perlin::lerp`: begin at weight 0, end at weight 1, and between the two for weights
      in [0, 1]. */
  function Lerp(begin: real, end: real, weight: real): (r: real)
    ensures weight == 0.0 ==> r == begin
    ensures weight == 1.0 ==> r == end
  {
    begin + weight * (end - begin)
  }

  /** For weights in [0, 1], `lerp` stays between its two ends. */
  lemma LerpBetween(begin: real, end: real, weight: real)
    requires 0.0 <= weight <= 1.0
    ensures begin <= end ==> begin <= Lerp(begin, end, weight) <= end
    ensures end <= begin ==> end <= Lerp(begin, end, weight) <= begin
  {
    var d := end - begin;
    if d >= 0.0 {
      MulNonNegative(weight, d);
      MulNonNegative(1.0 - weight, d);
    } else {
      MulNonNegative(weight, -d);
      MulNonNegative(1.0 - weight, -d);
    }
  }
}
