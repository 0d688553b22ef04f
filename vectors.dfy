/** Points and vectors of the body, with the float coordinates of Vector3 modelled as reals. */
module Vectors {

  /** A Vector3: a position in the body's local frame or in the world, or a force. */
  datatype Vec3 = Vec3(x: real, y: real, z: real)

  function Add(a: Vec3, b: Vec3): Vec3
  {
    Vec3(a.x + b.x, a.y + b.y, a.z + b.z)
  }

  function Scale(a: Vec3, k: real): Vec3
  {
    Vec3(a.x * k, a.y * k, a.z * k)
  }

  /** The weld's merged point, (a + b) * 0.5. */
  function Midpoint(a: Vec3, b: Vec3): Vec3
  {
    Scale(Add(a, b), 0.5)
  }

  /** The square of Vector3.Distance; it orders pairs exactly as the distance does. */
  function SqDist(a: Vec3, b: Vec3): (d: real)
    ensures d >= 0.0
  {
    var dx, dy, dz := a.x - b.x, a.y - b.y, a.z - b.z;
    dx * dx + dy * dy + dz * dz
  }

  function Abs(r: real): real
  {
    if r < 0.0 then -r else r
  }

  /** The merged point lies halfway: a quarter of the squared distance from each end. */
  lemma MidpointHalfway(a: Vec3, b: Vec3)
    ensures SqDist(a, Midpoint(a, b)) == SqDist(Midpoint(a, b), b) == SqDist(a, b) / 4.0
  {
  }
}
