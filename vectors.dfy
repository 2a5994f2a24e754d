/** Three-component vectors over the reals, the colour type and rays.
    Vectors and colours are values; their components are exact reals. */
module Vectors {

  datatype Vec3 = Vec3(x: real, y: real, z: real)

  /** Colours share the vector representation (r, g, b). */
  type Color = Vec3

  const Zero: Vec3 := Vec3(0.0, 0.0, 0.0)
  const Black: Color := Vec3(0.0, 0.0, 0.0)
  const White: Color := Vec3(1.0, 1.0, 1.0)

  function Add(a: Vec3, b: Vec3): Vec3 { Vec3(a.x + b.x, a.y + b.y, a.z + b.z) }

  function Sub(a: Vec3, b: Vec3): Vec3 { Vec3(a.x - b.x, a.y - b.y, a.z - b.z) }

  function Neg(a: Vec3): Vec3 { Vec3(-a.x, -a.y, -a.z) }

  function Scale(a: Vec3, k: real): Vec3 { Vec3(a.x * k, a.y * k, a.z * k) }

  function Dot(a: Vec3, b: Vec3): real { a.x * b.x + a.y * b.y + a.z * b.z }

  function Cross(a: Vec3, b: Vec3): Vec3
  {
    Vec3(a.y * b.z - a.z * b.y, a.z * b.x - a.x * b.z, a.x * b.y - a.y * b.x)
  }

  function LengthSq(a: Vec3): real { Dot(a, a) }

  /** Component-wise product (Eigen's `cwiseProduct`). */
  function Mul(a: Vec3, b: Vec3): Vec3 { Vec3(a.x * b.x, a.y * b.y, a.z * b.z) }

  /** Coordinate `i` of a vector, for i in {0, 1, 2}. */
  function Component(a: Vec3, i: nat): real
    requires i < 3
  {
    if i == 0 then a.x else if i == 1 then a.y else a.z
  }

  /** Coordinates of sums, differences and multiples are taken coordinate by coordinate. */
  lemma ComponentLinear(a: Vec3, b: Vec3, t: real, i: nat)
    requires i < 3
    ensures Component(Add(a, b), i) == Component(a, i) + Component(b, i)
    ensures Component(Sub(a, b), i) == Component(a, i) - Component(b, i)
    ensures Component(Scale(a, t), i) == Component(a, i) * t
  {
  }

  /** A ray: origin, direction and the time at which it is cast (for motion blur). */
  datatype Ray = Ray(pos: Vec3, dir: Vec3, time: real)

  /** `Ray::at`: the point `pos + dir * t`. */
  function At(r: Ray, t: real): Vec3 { Add(r.pos, Scale(r.dir, t)) }

  /** A product of non-negative reals is non-negative (a step the solver's linear reasoning
      does not take on its own). */
  lemma MulNonNegative(a: real, b: real)
    requires a >= 0.0 && b >= 0.0
    ensures a * b >= 0.0
  {
  }

  /** The dot product is linear along a ray: n . (pos + t dir) = n . pos + t (n . dir). */
  lemma DotAlongRay(n: Vec3, r: Ray, t: real)
    ensures Dot(n, At(r, t)) == Dot(n, r.pos) + t * Dot(n, r.dir)
  {
    assert n.x * (r.pos.x + r.dir.x * t) == n.x * r.pos.x + t * (n.x * r.dir.x);
    assert n.y * (r.pos.y + r.dir.y * t) == n.y * r.pos.y + t * (n.y * r.dir.y);
    assert n.z * (r.pos.z + r.dir.z * t) == n.z * r.pos.z + t * (n.z * r.dir.z);
  }

  lemma DotNeg(a: Vec3, b: Vec3)
    ensures Dot(Neg(a), b) == -Dot(a, b)
  {
  }

  lemma MulAssociative(a: Vec3, b: Vec3, c: Vec3)
    ensures Mul(Mul(a, b), c) == Mul(a, Mul(b, c))
  {
  }

  lemma MulDistributes(a: Vec3, b: Vec3, c: Vec3)
    ensures Mul(a, Add(b, c)) == Add(Mul(a, b), Mul(a, c))
  {
  }

  /** One component of (a u + b v) x v, with the products over sums named so the solver
      only matches terms. */
  lemma MinorLinearLeft(u1: real, u2: real, v1: real, v2: real, a: real, b: real, p1: real, p2: real, m: real)
    requires p1 == u1 * a + v1 * b && p2 == u2 * a + v2 * b && m == u1 * v2 - u2 * v1
    ensures p1 * v2 - p2 * v1 == m * a
  {
  }
  /** One component of u x (a u + b v). */
  lemma MinorLinearRight(u1: real, u2: real, v1: real, v2: real, a: real, b: real, p1: real, p2: real, m: real)
    requires p1 == u1 * a + v1 * b && p2 == u2 * a + v2 * b && m == u1 * v2 - u2 * v1
    ensures u1 * p2 - u2 * p1 == m * b
  {
  }
  lemma CrossLinearLeftX(u: Vec3, v: Vec3, a: real, b: real)
    ensures Cross(Add(Scale(u, a), Scale(v, b)), v).x == Scale(Cross(u, v), a).x
  {
    var pv := Add(Scale(u, a), Scale(v, b));
    MinorLinearLeft(u.y, u.z, v.y, v.z, a, b, pv.y, pv.z, Cross(u, v).x);
  }
  lemma CrossLinearLeftY(u: Vec3, v: Vec3, a: real, b: real)
    ensures Cross(Add(Scale(u, a), Scale(v, b)), v).y == Scale(Cross(u, v), a).y
  {
    var pv := Add(Scale(u, a), Scale(v, b));
    MinorLinearLeft(u.z, u.x, v.z, v.x, a, b, pv.z, pv.x, Cross(u, v).y);
  }
  lemma CrossLinearLeftZ(u: Vec3, v: Vec3, a: real, b: real)
    ensures Cross(Add(Scale(u, a), Scale(v, b)), v).z == Scale(Cross(u, v), a).z
  {
    var pv := Add(Scale(u, a), Scale(v, b));
    MinorLinearLeft(u.x, u.y, v.x, v.y, a, b, pv.x, pv.y, Cross(u, v).z);
  }
  /** (a u + b v) x v = a (u x v). */
  lemma CrossLinearLeft(u: Vec3, v: Vec3, a: real, b: real)
    ensures Cross(Add(Scale(u, a), Scale(v, b)), v) == Scale(Cross(u, v), a)
  {
    CrossLinearLeftX(u, v, a, b);
    CrossLinearLeftY(u, v, a, b);
    CrossLinearLeftZ(u, v, a, b);
  }
  lemma CrossLinearRightX(u: Vec3, v: Vec3, a: real, b: real)
    ensures Cross(u, Add(Scale(u, a), Scale(v, b))).x == Scale(Cross(u, v), b).x
  {
    var pv := Add(Scale(u, a), Scale(v, b));
    MinorLinearRight(u.y, u.z, v.y, v.z, a, b, pv.y, pv.z, Cross(u, v).x);
  }

  lemma CrossLinearRightY(u: Vec3, v: Vec3, a: real, b: real)
    ensures Cross(u, Add(Scale(u, a), Scale(v, b))).y == Scale(Cross(u, v), b).y
  {
    var pv := Add(Scale(u, a), Scale(v, b));
    MinorLinearRight(u.z, u.x, v.z, v.x, a, b, pv.z, pv.x, Cross(u, v).y);
  }

  lemma CrossLinearRightZ(u: Vec3, v: Vec3, a: real, b: real)
    ensures Cross(u, Add(Scale(u, a), Scale(v, b))).z == Scale(Cross(u, v), b).z
  {
    var pv := Add(Scale(u, a), Scale(v, b));
    MinorLinearRight(u.x, u.y, v.x, v.y, a, b, pv.x, pv.y, Cross(u, v).z);
  }

  /** u x (a u + b v) = b (u x v). */
  lemma CrossLinearRight(u: Vec3, v: Vec3, a: real, b: real)
    ensures Cross(u, Add(Scale(u, a), Scale(v, b))) == Scale(Cross(u, v), b)
  {
    CrossLinearRightX(u, v, a, b);
    CrossLinearRightY(u, v, a, b);
    CrossLinearRightZ(u, v, a, b);
  }

  /** Both cross products of a point a u + b v of the plane spanned by u and v. */
  lemma CrossLinear(u: Vec3, v: Vec3, a: real, b: real)
    ensures Cross(Add(Scale(u, a), Scale(v, b)), v) == Scale(Cross(u, v), a)
    ensures Cross(u, Add(Scale(u, a), Scale(v, b))) == Scale(Cross(u, v), b)
  {
    CrossLinearLeft(u, v, a, b);
    CrossLinearRight(u, v, a, b);
  }
}
