/**
  Quadrant geometry of one quadtree node (QuadTree.cs `Split`, `GetIndex`,
  `GetSliceIndex`). A node is described by its center and size; quadrants are
  numbered 0 = top-right, 1 = top-left, 2 = bottom-left, 3 = bottom-right,
  where "top" is +z and "right" is +x.
 */
module Quadrants {
  import opened Geometry

  /** Quadrant q lies on the +x side of the vertical split line. */
  predicate IsRight(q: int) { q == 0 || q == 3 }

  /** Quadrant q lies on the +z side of the horizontal split line. */
  predicate IsTop(q: int) { q == 0 || q == 1 }

  /**
    The box `Split` gives child q: the quadrant center offset by a quarter
    of the parent's size on x and z, half the parent's x/z size, the
    parent's y center and y size.
   */
  function ChildBox(center: Vec3, size: Vec3, q: int): Rect
    requires 0 <= q < 4
  {
    var halfLength := size.x * 0.5;
    var halfWidth := size.z * 0.5;
    var dx := if IsRight(q) then halfLength * 0.5 else -(halfLength * 0.5);
    var dz := if IsTop(q) then halfWidth * 0.5 else -(halfWidth * 0.5);
    Rect(Vec3(center.x + dx, center.y, center.z + dz), Vec3(halfLength, size.y, halfWidth))
  }

  /**
    The children of a split node tile the parent: child q spans, on each
    partitioned axis, the half of the parent between the split line and the
    parent's edge on q's side.
   */
  lemma ChildBoxIsQuadrant(center: Vec3, size: Vec3, q: int)
    requires 0 <= q < 4
    ensures var b := ChildBox(center, size, q);
      var parent := Rect(center, size);
      (if IsRight(q) then b.LoX() == center.x && b.HiX() == parent.HiX()
       else b.LoX() == parent.LoX() && b.HiX() == center.x) &&
      (if IsTop(q) then b.LoZ() == center.z && b.HiZ() == parent.HiZ()
       else b.LoZ() == parent.LoZ() && b.HiZ() == center.z) &&
      b.center.y == center.y && b.size.y == size.y
  {
  }

  /** The point p lies strictly on quadrant q's side of both split lines through c. */
  predicate StrictlyOnSide(c: Vec3, p: Vec3, q: int)
  {
    (if IsRight(q) then p.x > c.x else p.x < c.x) &&
    (if IsTop(q) then p.z > c.z else p.z < c.z)
  }

  /**
    Reference meaning of strict classification: r fits inside the box of
    child q and its center is strictly on q's side of both split lines.
   */
  predicate InQuadrant(center: Vec3, size: Vec3, r: Rect, q: int)
    requires 0 <= q < 4
  {
    Within(r, ChildBox(center, size, q)) && StrictlyOnSide(center, r.center, q)
  }

  /**
    `GetIndex` (QuadTree.cs:100-136): the strict classifier. Each side test
    needs the center strictly past the split line, a margin of at least the
    object's half-size (`>=`), and the far edge inside the node.
   */
  function GetIndex(center: Vec3, size: Vec3, r: Rect): (q: int)
    ensures -1 <= q <= 3
    ensures q >= 0 ==> InQuadrant(center, size, r, q)
    ensures q == -1 ==> forall k :: 0 <= k < 4 ==> !InQuadrant(center, size, r, k)
  {
    var centerX := center.x;
    var centerY := center.z;
    var centerHalfLength := size.x * 0.5;
    var centerHalfWidth := size.z * 0.5;
    var boundsHalfLength := r.size.x * 0.5;
    var boundsHalfWidth := r.size.z * 0.5;
    var x := r.center.x;
    var y := r.center.z;
    var top := y > centerY && y - centerY >= boundsHalfWidth && y + boundsHalfWidth <= centerY + centerHalfWidth;
    var bottom := y < centerY && Abs(y - centerY) >= boundsHalfWidth && y - boundsHalfWidth >= centerY - centerHalfWidth;
    var right := x > centerX && x - centerX >= boundsHalfLength && x + boundsHalfLength <= centerX + centerHalfLength;
    var left := x < centerX && Abs(x - centerX) >= boundsHalfLength && x - boundsHalfLength >= centerX - centerHalfLength;
    if top && right then 0
    else if top && left then 1
    else if bottom && left then 2
    else if bottom && right then 3
    else -1
  }

  /** Strict classification is exact: GetIndex names q iff r is in quadrant q. */
  lemma GetIndexExact(center: Vec3, size: Vec3, r: Rect, q: int)
    requires 0 <= q < 4
    ensures GetIndex(center, size, r) == q <==> InQuadrant(center, size, r, q)
  {
  }

  /** An object whose center lies on a split line is never classified (ties give -1). */
  lemma OnSplitLineIsUnclassified(center: Vec3, size: Vec3, r: Rect)
    requires r.center.x == center.x || r.center.z == center.z
    ensures GetIndex(center, size, r) == -1
  {
  }

  /** An object touching a split line with zero margin to spare is still classified (`>=`). */
  lemma EdgeOnSplitLineIsClassified(center: Vec3, size: Vec3, r: Rect)
    requires r.size.x > 0.0 && r.size.z > 0.0 && size.x > 0.0 && size.z > 0.0
    requires r.LoX() == center.x && r.LoZ() == center.z
    requires r.HiX() <= center.x + size.x * 0.5 && r.HiZ() <= center.z + size.z * 0.5
    ensures GetIndex(center, size, r) == 0
  {
  }

  /**
    `GetSliceIndex` (QuadTree.cs:143-178): the loose classifier, by the
    center alone, with `>=` so that ties go to top and right. It never
    answers -1.
   */
  function GetSliceIndex(center: Vec3, r: Rect): (q: int)
    ensures 0 <= q <= 3
  {
    var x := r.center.x;
    var y := r.center.z;
    var top := y >= center.z;
    var bottom := y < center.z;
    var right := x >= center.x;
    var left := x < center.x;
    if top && right then 0
    else if top && left then 1
    else if bottom && left then 2
    else if bottom && right then 3
    else -1
  }

  /** The loose classifier agrees with the strict one wherever the strict one answers. */
  lemma SliceIndexRefinesIndex(center: Vec3, size: Vec3, r: Rect)
    requires GetIndex(center, size, r) >= 0
    ensures GetSliceIndex(center, r) == GetIndex(center, size, r)
  {
  }

  /** The loose classifier puts a point strictly inside quadrant q into q, and ties on both lines into 0. */
  lemma SliceIndexOfSide(center: Vec3, r: Rect, q: int)
    requires 0 <= q < 4
    ensures StrictlyOnSide(center, r.center, q) ==> GetSliceIndex(center, r) == q
    ensures r.center.x == center.x && r.center.z == center.z ==> GetSliceIndex(center, r) == 0
  {
  }
}
