/**
  Plane geometry shared by the quadtree and the collision objects.
  Positions are Unity `Vector3` values; the tree partitions the x/z plane and
  carries y through unchanged. Coordinates are exact reals.
 */
module Geometry {

  /** A Unity `Vector3`. */
  datatype Vec3 = Vec3(x: real, y: real, z: real)
  {
    function Plus(o: Vec3): Vec3 { Vec3(x + o.x, y + o.y, z + o.z) }
    function Scale(k: real): Vec3 { Vec3(k * x, k * y, k * z) }
  }

  const Zero := Vec3(0.0, 0.0, 0.0)

  /** A Unity `Vector4`, used for the per-object clamp limits (x/y on the x axis, z/w on z). */
  datatype Vec4 = Vec4(x: real, y: real, z: real, w: real)

  /** An axis-aligned box given by its center and full size (a Unity `Bounds`). */
  datatype Rect = Rect(center: Vec3, size: Vec3)
  {
    function LoX(): real { center.x - size.x / 2.0 }
    function HiX(): real { center.x + size.x / 2.0 }
    function LoZ(): real { center.z - size.z / 2.0 }
    function HiZ(): real { center.z + size.z / 2.0 }
  }

  /** `Mathf.Abs`. */
  function Abs(a: real): (r: real)
    ensures r >= 0.0 && (r == a || r == -a)
  {
    if a < 0.0 then -a else a
  }

  /** The closed box `inner` lies inside the closed box `outer` on both partitioned axes. */
  predicate Within(inner: Rect, outer: Rect)
  {
    outer.LoX() <= inner.LoX() && inner.HiX() <= outer.HiX() &&
    outer.LoZ() <= inner.LoZ() && inner.HiZ() <= outer.HiZ()
  }
}
