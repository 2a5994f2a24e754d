/** `Camera::rayColor`: the colour a ray brings back from the scene, following scattered
    rays for at most `depth` bounces. Materials are outside this model: what a material
    emits and how it scatters are functions of the hit record. */
module Integrator {
  import Doubles
  import opened Vectors
  import opened Intervals
  import opened Hittables

  /** `EPS`: the lower end of the accepted hit interval, so that a scattered ray does not
      hit the surface it leaves. */
  const Eps: real := 0.001

  /** What `scatter` reports when it does not absorb the ray. */
  datatype Bounce = Bounce(attenuation: Color, scattered: Ray)

  /** What the integrator sees of the scene: the world's `hit` over (EPS, INF), the
      background colour and the materials' `emitted` and `scatter`. */
  datatype Scene = Scene(hit: Ray -> Option<HitRecord>, background: Color, emitted: HitRecord -> Color,
                         scatter: (Ray, HitRecord) -> Option<Bounce>)

  /** The scene of a world: its hits are those `world.hit(ray, Interval(EPS, INF), record)`
      reports. */
  function WorldScene(world: Hittable, background: Color, emitted: HitRecord -> Color,
                      scatter: (Ray, HitRecord) -> Option<Bounce>, sqrt: real -> real): (scene: Scene)
    ensures forall r :: scene.hit(r) == Hit(world, r, Interval(Doubles.Finite(Eps), Doubles.PosInf), sqrt)
  {
    Scene(r => Hit(world, r, Interval(Doubles.Finite(Eps), Doubles.PosInf), sqrt), background, emitted, scatter)
  }

  /** `rayColor(ray, world, depth)`. */
  function RayColor(scene: Scene, r: Ray, depth: int): Color
    decreases depth
  {
    if depth <= 0 then Black
    else match scene.hit(r)
      case None => scene.background
      case Some(rec) =>
        var emission := scene.emitted(rec);
        match scene.scatter(r, rec)
        case None => emission
        case Some(b) => Add(Mul(b.attenuation, RayColor(scene, b.scattered, depth - 1)), emission)
  }

  // ---- the path a ray follows ----

  /** One scattering surface on the path: its attenuation and its emission. */
  datatype Step = Step(attenuation: Color, emission: Color)

  /** How a path ends: the depth ran out, the ray left the scene, or a surface absorbed it
      (and still emits). */
  datatype End = OutOfDepth | Escaped | Absorbed(emission: Color)

  datatype Path = Path(steps: seq<Step>, end: End)

  /** The path a ray follows from `r` with `depth` bounces left. */
  function Trace(scene: Scene, r: Ray, depth: int): (p: Path)
    ensures depth <= 0 ==> p == Path([], OutOfDepth)
    ensures 0 <= depth ==> |p.steps| <= depth
    ensures p.end.OutOfDepth? && 0 <= depth ==> |p.steps| == depth
    decreases depth
  {
    if depth <= 0 then Path([], OutOfDepth)
    else match scene.hit(r)
      case None => Path([], Escaped)
      case Some(rec) =>
        match scene.scatter(r, rec)
        case None => Path([], Absorbed(scene.emitted(rec)))
        case Some(b) =>
          var rest := Trace(scene, b.scattered, depth - 1);
          Path([Step(b.attenuation, scene.emitted(rec))] + rest.steps, rest.end)
  }

  /** The product of the attenuations met along the steps. */
  function Throughput(steps: seq<Step>): Color
  {
    if |steps| == 0 then White else Mul(Throughput(steps[..|steps| - 1]), steps[|steps| - 1].attenuation)
  }

  /** Each step's emission, weighted by the throughput of the steps before it, summed. */
  function EmissionSum(steps: seq<Step>): Color
  {
    if |steps| == 0 then Black
    else Add(EmissionSum(steps[..|steps| - 1]), Mul(Throughput(steps[..|steps| - 1]), steps[|steps| - 1].emission))
  }

  /** The colour at the end of a path. */
  function EndColor(e: End, background: Color): Color
  {
    match e
    case OutOfDepth => Black
    case Escaped => background
    case Absorbed(emission) => emission
  }

  /** The colour of a path: the weighted emissions plus the end colour weighted by the
      throughput of the whole path. */
  function PathColor(p: Path, background: Color): Color
  {
    Add(EmissionSum(p.steps), Mul(Throughput(p.steps), EndColor(p.end, background)))
  }

  // ---- the recursion computes the path's colour ----

  /** `rayColor` is the throughput-weighted sum of the emissions along the traced path,
      plus the background when the path escapes. */
  lemma {:induction false} RayColorIsPathColor(scene: Scene, r: Ray, depth: int)
    ensures RayColor(scene, r, depth) == PathColor(Trace(scene, r, depth), scene.background)
    decreases depth
  {
    if depth > 0 && scene.hit(r).Some? {
      var rec := scene.hit(r).value;
      if scene.scatter(r, rec).Some? {
        var b := scene.scatter(r, rec).value;
        var rest := Trace(scene, b.scattered, depth - 1);
        RayColorIsPathColor(scene, b.scattered, depth - 1);
        PrependStep(Step(b.attenuation, scene.emitted(rec)), rest, scene.background);
      } else {
        assert Throughput([]) == White;
        MulWhite(scene.emitted(rec));
      }
    } else {
      MulWhite(EndColor(Trace(scene, r, depth).end, scene.background));
    }
  }

  /** A step in front of a path: its emission plus its attenuation times the rest. */
  lemma PrependStep(s: Step, p: Path, background: Color)
    ensures PathColor(Path([s] + p.steps, p.end), background) ==
            Add(Mul(s.attenuation, PathColor(p, background)), s.emission)
  {
    var e := EndColor(p.end, background);
    ThroughputPrepend(s, p.steps);
    EmissionSumPrepend(s, p.steps);
    var a, m, t := s.attenuation, EmissionSum(p.steps), Throughput(p.steps);
    MulAssociative(a, t, e);
    MulDistributes(a, m, Mul(t, e));
    AddSwap(s.emission, Mul(a, m), Mul(a, Mul(t, e)));
  }

  lemma {:induction false} ThroughputPrepend(s: Step, steps: seq<Step>)
    ensures Throughput([s] + steps) == Mul(s.attenuation, Throughput(steps))
    decreases |steps|
  {
    if |steps| == 0 {
      MulWhite(s.attenuation);
      MulWhiteLeft(s.attenuation);
    } else {
      var init, last := steps[..|steps| - 1], steps[|steps| - 1];
      assert ([s] + steps)[..|steps|] == [s] + init;
      ThroughputPrepend(s, init);
      MulAssociative(s.attenuation, Throughput(init), last.attenuation);
    }
  }

  lemma {:induction false} EmissionSumPrepend(s: Step, steps: seq<Step>)
    ensures EmissionSum([s] + steps) == Add(s.emission, Mul(s.attenuation, EmissionSum(steps)))
    decreases |steps|
  {
    if |steps| == 0 {
      assert ([s] + steps)[..0] == [];
      MulWhiteLeft(s.emission);
      MulBlack(s.attenuation);
    } else {
      var init, last := steps[..|steps| - 1], steps[|steps| - 1];
      assert ([s] + steps)[..|steps|] == [s] + init;
      EmissionSumPrepend(s, init);
      ThroughputPrepend(s, init);
      var a, m, t := s.attenuation, EmissionSum(init), Throughput(init);
      MulAssociative(a, t, last.emission);
      MulDistributes(a, m, Mul(t, last.emission));
      AddAssoc(s.emission, Mul(a, m), Mul(a, Mul(t, last.emission)));
    }
  }

  // ---- how deep the recursion goes ----

  /** Once the path ends before the depth runs out, more depth changes nothing. */
  lemma {:induction false} DepthBeyondPath(scene: Scene, r: Ray, depth: int, more: int)
    requires depth <= more
    requires !Trace(scene, r, depth).end.OutOfDepth?
    ensures RayColor(scene, r, more) == RayColor(scene, r, depth)
    decreases depth
  {
    if scene.hit(r).Some? && scene.scatter(r, scene.hit(r).value).Some? {
      var b := scene.scatter(r, scene.hit(r).value).value;
      DepthBeyondPath(scene, b.scattered, depth - 1, more - 1);
    }
  }

  /** No colour is negative when the background, every emission and every attenuation has
      no negative component. */
  lemma {:induction false} RayColorNonNegative(scene: Scene, r: Ray, depth: int)
    requires NonNegative(scene.background)
    requires forall rec :: NonNegative(scene.emitted(rec))
    requires forall ray, rec :: scene.scatter(ray, rec).Some? ==> NonNegative(scene.scatter(ray, rec).value.attenuation)
    ensures NonNegative(RayColor(scene, r, depth))
    decreases depth
  {
    if depth > 0 && scene.hit(r).Some? {
      var rec := scene.hit(r).value;
      if scene.scatter(r, rec).Some? {
        var b := scene.scatter(r, rec).value;
        RayColorNonNegative(scene, b.scattered, depth - 1);
        var c := RayColor(scene, b.scattered, depth - 1);
        MulNonNegative(b.attenuation.x, c.x);
        MulNonNegative(b.attenuation.y, c.y);
        MulNonNegative(b.attenuation.z, c.z);
      }
    }
  }

  predicate NonNegative(c: Color)
  {
    c.x >= 0.0 && c.y >= 0.0 && c.z >= 0.0
  }

  // ---- componentwise algebra of colours ----

  lemma MulWhite(c: Color)
    ensures Mul(White, c) == c
  {
  }

  lemma MulWhiteLeft(c: Color)
    ensures Mul(c, White) == c && Add(Black, c) == c && Add(c, Black) == c
  {
  }

  lemma MulBlack(c: Color)
    ensures Mul(c, Black) == Black
  {
  }

  lemma AddSwap(e: Color, m: Color, t: Color)
    ensures Add(e, Add(m, t)) == Add(Add(m, t), e)
  {
  }

  lemma AddAssoc(a: Color, b: Color, c: Color)
    ensures Add(Add(a, b), c) == Add(a, Add(b, c))
  {
  }
}
