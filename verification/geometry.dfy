/**
 Three-dimensional points and vectors, the part of the host's `XYZ` type the
 opening placement uses: addition of a vector to a point and scaling of a
 vector by a distance. Coordinates are exact reals, an abstraction of the
 host's double-precision values.
 */
module Geometry {

  datatype Xyz = Xyz(x: real, y: real, z: real)

  /** `a + b`, component-wise */
  function Add(a: Xyz, b: Xyz): Xyz {
    Xyz(a.x + b.x, a.y + b.y, a.z + b.z)
  }

  /** `a - b`, component-wise */
  function Sub(a: Xyz, b: Xyz): Xyz {
    Xyz(a.x - b.x, a.y - b.y, a.z - b.z)
  }

  /** `v * t`, a vector scaled by a scalar */
  function Scale(v: Xyz, t: real): Xyz {
    Xyz(v.x * t, v.y * t, v.z * t)
  }

  function Dot(a: Xyz, b: Xyz): real {
    a.x * b.x + a.y * b.y + a.z * b.z
  }

  /** The squared Euclidean length of a vector */
  function SqLength(v: Xyz): real {
    Dot(v, v)
  }

  /** A direction as a line reports it: normalized to length one */
  predicate IsUnit(v: Xyz) {
    SqLength(v) == 1.0
  }

  /** The point reached from `origin` after travelling `t` along `direction` */
  function PointAlong(origin: Xyz, direction: Xyz, t: real): Xyz {
    Add(origin, Scale(direction, t))
  }

  /** Travelling `t` along `direction` moves the point by exactly `t` lengths
      of `direction`, measured squared to stay within the reals. */
  lemma PointAlongDistance(origin: Xyz, direction: Xyz, t: real)
    ensures SqLength(Sub(PointAlong(origin, direction, t), origin)) == t * t * SqLength(direction)
  {
  }

  /** Along a unit direction, a point at parameter `t` with `0 <= t <= bound`
      lies within distance `bound` of the origin. */
  lemma PointAlongWithin(origin: Xyz, direction: Xyz, t: real, bound: real)
    requires IsUnit(direction)
    requires 0.0 <= t <= bound
    ensures SqLength(Sub(PointAlong(origin, direction, t), origin)) == t * t
    ensures SqLength(Sub(PointAlong(origin, direction, t), origin)) <= bound * bound
  {
  }
}
