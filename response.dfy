/**
  The collision arithmetic of `CollisionObject` (QuadTree.cs:487-563) on
  plain values: the overlap test of `IsCollide`, the velocity-averaging
  response of `Collide(CollisionObject)` and the wall response of
  `Collide(Bounds)`. The class methods in module QuadTreeCore apply these.
 */
module Response {
  import opened Geometry

  /** `IsCollide`'s test: the boxes overlap or touch on both x and z (inclusive). */
  predicate Overlap(c1: Vec3, h1: Vec3, c2: Vec3, h2: Vec3)
  {
    Abs(c1.x - c2.x) <= h1.x + h2.x && Abs(c1.z - c2.z) <= h1.z + h2.z
  }

  /** +1 when `mine > theirs`, else -1 (equal coordinates give -1). */
  function Direction(mine: real, theirs: real): (d: real)
    ensures d == 1.0 || d == -1.0
  {
    if mine > theirs then 1.0 else -1.0
  }

  /**
    New velocity of an object (center c1, half-size h1, velocity v1) after
    `Collide` with another (c2, h2, v2): on each partitioned axis whose
    extents meet, the speed becomes the mean of the two speeds, pointing
    away from the other object.
   */
  function CollideVelocity(c1: Vec3, h1: Vec3, v1: Vec3, c2: Vec3, h2: Vec3, v2: Vec3): (v: Vec3)
    ensures v.y == v1.y
    ensures (h1.x + h2.x) - Abs(c1.x - c2.x) >= 0.0
      ==> Abs(v.x) == (Abs(v1.x) + Abs(v2.x)) / 2.0 && (v.x > 0.0 ==> c1.x > c2.x) && (c1.x > c2.x ==> v.x >= 0.0)
    ensures (h1.x + h2.x) - Abs(c1.x - c2.x) < 0.0 ==> v.x == v1.x
    ensures (h1.z + h2.z) - Abs(c1.z - c2.z) >= 0.0
      ==> Abs(v.z) == (Abs(v1.z) + Abs(v2.z)) / 2.0 && (v.z > 0.0 ==> c1.z > c2.z) && (c1.z > c2.z ==> v.z >= 0.0)
    ensures (h1.z + h2.z) - Abs(c1.z - c2.z) < 0.0 ==> v.z == v1.z
  {
    var lengthSum := h1.x + h2.x;
    var widthSum := h1.z + h2.z;
    var dLength := lengthSum - Abs(c1.x - c2.x);
    var dWidth := widthSum - Abs(c1.z - c2.z);
    var vx := if dLength >= 0.0 then Direction(c1.x, c2.x) * (Abs(v1.x) + Abs(v2.x)) * 0.5 else v1.x;
    var vz := if dWidth >= 0.0 then Direction(c1.z, c2.z) * (Abs(v1.z) + Abs(v2.z)) * 0.5 else v1.z;
    Vec3(vx, v1.y, vz)
  }

  /**
    `IsCollide(object1, object2)` on two distinct objects: when they overlap,
    object 1 takes `CollideVelocity` against object 2, and object 2 then
    takes it against object 1's NEW velocity; otherwise neither changes.
    Returns the two new velocities.
   */
  function Bounce(c1: Vec3, h1: Vec3, v1: Vec3, c2: Vec3, h2: Vec3, v2: Vec3): (vv: (Vec3, Vec3))
    ensures !Overlap(c1, h1, c2, h2) ==> vv == (v1, v2)
    ensures vv.0.y == v1.y && vv.1.y == v2.y
  {
    if Overlap(c1, h1, c2, h2) then
      var n1 := CollideVelocity(c1, h1, v1, c2, h2, v2);
      (n1, CollideVelocity(c2, h2, v2, c1, h1, n1))
    else
      (v1, v2)
  }

  /**
    `Bounce` on overlapping objects: on each axis object 1's speed is the
    mean of the two, object 2's is (|v1| + 3|v2|) / 4, and the two move
    apart unless their centers coincide on that axis, where both get a
    non-positive velocity.
   */
  lemma PairResponse(c1: Vec3, h1: Vec3, v1: Vec3, c2: Vec3, h2: Vec3, v2: Vec3)
    requires Overlap(c1, h1, c2, h2)
    ensures var (n1, n2) := Bounce(c1, h1, v1, c2, h2, v2);
      Abs(n1.x) == (Abs(v1.x) + Abs(v2.x)) / 2.0 &&
      Abs(n2.x) == (Abs(v1.x) + 3.0 * Abs(v2.x)) / 4.0 &&
      Abs(n1.z) == (Abs(v1.z) + Abs(v2.z)) / 2.0 &&
      Abs(n2.z) == (Abs(v1.z) + 3.0 * Abs(v2.z)) / 4.0 &&
      (c1.x != c2.x ==> (n1.x > 0.0 ==> n2.x <= 0.0) && (n2.x > 0.0 ==> n1.x <= 0.0)) &&
      (c1.x == c2.x ==> n1.x <= 0.0 && n2.x <= 0.0) &&
      (c1.z != c2.z ==> (n1.z > 0.0 ==> n2.z <= 0.0) && (n2.z > 0.0 ==> n1.z <= 0.0)) &&
      (c1.z == c2.z ==> n1.z <= 0.0 && n2.z <= 0.0)
  {
    var n1 := CollideVelocity(c1, h1, v1, c2, h2, v2);
    assert Abs(c2.x - c1.x) == Abs(c1.x - c2.x) && Abs(c2.z - c1.z) == Abs(c1.z - c2.z);
  }

  /**
    `Collide(Bounds)` on values: on each partitioned axis where the object's
    extent reaches the wall of box b, the velocity on that axis is negated
    and the center jumps to the limit on the side it was (x/y of `limits`
    on x, z/w on z). Returns the new (center, velocity).
   */
  function WallResponse(c: Vec3, v: Vec3, h: Vec3, limits: Vec4, b: Rect): (cv: (Vec3, Vec3))
    ensures cv.0.y == c.y && cv.1.y == v.y
  {
    var hitX := Abs(c.x - b.center.x) + h.x >= b.size.x * 0.5;
    var vx := if hitX then v.x * -1.0 else v.x;
    var cx := if hitX then (if c.x < b.center.x then limits.x else limits.y) else c.x;
    var hitZ := Abs(c.z - b.center.z) + h.z >= b.size.z * 0.5;
    var vz := if hitZ then v.z * -1.0 else v.z;
    var cz := if hitZ then (if c.z < b.center.z then limits.z else limits.w) else c.z;
    (Vec3(cx, c.y, cz), Vec3(vx, v.y, vz))
  }

  /** The wall response on x: reaching the wall flips `velocity.x` and pins `center.x` to a limit; otherwise x is untouched. */
  lemma WallResponseOnX(c: Vec3, v: Vec3, h: Vec3, limits: Vec4, b: Rect)
    ensures var (c', v') := WallResponse(c, v, h, limits, b);
      if Abs(c.x - b.center.x) + h.x >= b.size.x / 2.0 then
        v'.x == -v.x && c'.x == (if c.x < b.center.x then limits.x else limits.y)
      else
        v'.x == v.x && c'.x == c.x
  {
  }

  /** The wall response on z, with limits z (near) and w (far). */
  lemma WallResponseOnZ(c: Vec3, v: Vec3, h: Vec3, limits: Vec4, b: Rect)
    ensures var (c', v') := WallResponse(c, v, h, limits, b);
      if Abs(c.z - b.center.z) + h.z >= b.size.z / 2.0 then
        v'.z == -v.z && c'.z == (if c.z < b.center.z then limits.z else limits.w)
      else
        v'.z == v.z && c'.z == c.z
  {
  }
}
