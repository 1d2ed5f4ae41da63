/** Three-component real vectors: the `float3`/`Vector3` values of the mesh
    generator, with floating point replaced by exact reals. */
module Vectors {

  datatype Vec3 = Vec3(x: real, y: real, z: real)

  function Sub(p: Vec3, q: Vec3): Vec3 {
    Vec3(p.x - q.x, p.y - q.y, p.z - q.z)
  }

  function Scale(p: Vec3, s: real): Vec3 {
    Vec3(p.x * s, p.y * s, p.z * s)
  }

  function Dot(p: Vec3, q: Vec3): real {
    p.x * q.x + p.y * q.y + p.z * q.z
  }

  /** `sqrMagnitude` of a vector. */
  function SqrMagnitude(p: Vec3): real {
    Dot(p, p)
  }

  /** The number `a + (b - a) * t`. */
  function Mix(a: real, b: real, t: real): real {
    a + (b - a) * t
  }

  /** The point `p + (q - p) * t`. */
  function Lerp(p: Vec3, q: Vec3, t: real): Vec3 {
    Vec3(Mix(p.x, q.x, t), Mix(p.y, q.y, t), Mix(p.z, q.z, t))
  }

  /** The taxicab distance between `p` and `q`. */
  function Manhattan(p: Vec3, q: Vec3): real {
    Abs(p.x - q.x) + Abs(p.y - q.y) + Abs(p.z - q.z)
  }

  function Abs(r: real): real {
    if r < 0.0 then -r else r
  }
}
