/**
  `CollisionObject.Carve` (QuadTree.cs:397-481): cutting a query rectangle
  that straddles a node's split lines into pieces that each lie on one side
  of them. Pieces are fresh throw-away objects in the source; here they are
  `Rect` values (their center and size are all the query uses).
 */
module Carving {
  import opened Geometry
  import opened Quadrants

  /** The line z = pz cuts r's interior (the source's `carveX`). */
  predicate CutsZ(r: Rect, pz: real)
  {
    var dy := Abs(r.center.z - pz);
    dy > 0.0 && dy < r.size.z * 0.5
  }

  /** The line x = px cuts r's interior (the source's `carveY`). */
  predicate CutsX(r: Rect, px: real)
  {
    var dx := Abs(r.center.x - px);
    dx > 0.0 && dx < r.size.x * 0.5
  }

  /** How many of the two lines cut r. */
  function Straddles(r: Rect, px: real, pz: real): nat
  {
    (if CutsZ(r, pz) then 1 else 0) + (if CutsX(r, px) then 1 else 0)
  }

  /**
    Carve r at the split lines x = px and z = pz. A rectangle cut by both
    lines is first cut along x at its own z (a call that reaches the x-only
    branch), and each half is then carved again. The x-only branch sizes
    its pieces from `halfWidth`, the z half-size, as the source does.
   */
  function Carve(r: Rect, px: real, pz: real): (pieces: seq<Rect>)
    ensures |pieces| == 2 * Straddles(r, px, pz)
    decreases Straddles(r, px, pz)
  {
    var dx := Abs(r.center.x - px);
    var dy := Abs(r.center.z - pz);
    var carveX := dy > 0.0 && dy < r.size.z * 0.5;
    var carveY := dx > 0.0 && dx < r.size.x * 0.5;
    var halfLength := r.size.x * 0.5;
    var halfWidth := r.size.z * 0.5;
    if carveX && carveY then
      assert Straddles(r, px, r.center.z) == 1;
      var halves := Carve(r, px, r.center.z);
      assert !CutsX(halves[0], px) && !CutsX(halves[1], px);
      Carve(halves[0], px, pz) + Carve(halves[1], px, pz)
    else if carveX then
      var shortSideWidth := halfWidth - dy;
      var longSideWidth := halfWidth + dy;
      var direction: real := if r.center.z > pz then -1.0 else 1.0;
      var shortSideCenter := Vec3(r.center.x, 0.0, shortSideWidth * 0.5 * direction + pz);
      var longSideCenter := Vec3(r.center.x, 0.0, longSideWidth * 0.5 * -1.0 * direction + pz);
      [Rect(shortSideCenter, Vec3(r.size.x, r.size.y, shortSideWidth)),
       Rect(longSideCenter, Vec3(r.size.x, r.size.y, longSideWidth))]
    else if carveY then
      var shortSideLength := halfWidth - dx;
      var longSideLength := halfWidth + dx;
      var direction: real := if r.center.x > px then -1.0 else 1.0;
      var shortSideCenter := Vec3(direction * shortSideLength * 0.5 + px, 0.0, r.center.z);
      var longSideCenter := Vec3(-1.0 * direction * longSideLength * 0.5 + px, 0.0, r.center.z);
      [Rect(shortSideCenter, Vec3(shortSideLength, r.size.y, r.size.z)),
       Rect(longSideCenter, Vec3(longSideLength, r.size.y, r.size.z))]
    else
      []
  }

  /** a and b split r at the line z = pz: same x extent as r, and z extents [LoZ, pz] and [pz, HiZ]. */
  predicate TilesAlongZ(r: Rect, pz: real, a: Rect, b: Rect)
  {
    a.LoX() == r.LoX() && a.HiX() == r.HiX() && b.LoX() == r.LoX() && b.HiX() == r.HiX() &&
    ((a.LoZ() == r.LoZ() && a.HiZ() == pz && b.LoZ() == pz && b.HiZ() == r.HiZ()) ||
     (b.LoZ() == r.LoZ() && b.HiZ() == pz && a.LoZ() == pz && a.HiZ() == r.HiZ()))
  }

  /** a and b split r at the line x = px: same z extent as r, and x extents [LoX, px] and [px, HiX]. */
  predicate TilesAlongX(r: Rect, px: real, a: Rect, b: Rect)
  {
    a.LoZ() == r.LoZ() && a.HiZ() == r.HiZ() && b.LoZ() == r.LoZ() && b.HiZ() == r.HiZ() &&
    ((a.LoX() == r.LoX() && a.HiX() == px && b.LoX() == px && b.HiX() == r.HiX()) ||
     (b.LoX() == r.LoX() && b.HiX() == px && a.LoX() == px && a.HiX() == r.HiX()))
  }

  /** A rectangle cut only by z = pz is tiled exactly by its two pieces, one on each side of the line. */
  lemma CarveAlongZTiles(r: Rect, px: real, pz: real)
    requires CutsZ(r, pz) && !CutsX(r, px)
    ensures var p := Carve(r, px, pz);
      |p| == 2 && TilesAlongZ(r, pz, p[0], p[1]) &&
      p[0].size.z + p[1].size.z == r.size.z &&
      p[0].size.z > 0.0 && p[1].size.z > 0.0 &&
      (p[0].center.z < pz <==> p[1].center.z > pz)
  {
  }

  /**
    A rectangle cut only by x = px is tiled by its two pieces if and only if
    it is square: the pieces' x sizes add up to `size.z`, not `size.x`.
   */
  lemma CarveAlongXTilesIffSquare(r: Rect, px: real, pz: real)
    requires CutsX(r, px) && !CutsZ(r, pz)
    ensures var p := Carve(r, px, pz);
      |p| == 2 && p[0].size.x + p[1].size.x == r.size.z &&
      (TilesAlongX(r, px, p[0], p[1]) <==> r.size.x == r.size.z)
  {
    var p := Carve(r, px, pz);
    if TilesAlongX(r, px, p[0], p[1]) {
      assert p[0].size.x + p[1].size.x == r.size.x;
    }
  }

  /** The two pieces of a rectangle cut only by z = pz fall in the top and bottom quadrants on its own side of x = px. */
  lemma PiecesOfHalf(h: Rect, px: real, pz: real)
    requires CutsZ(h, pz) && !CutsX(h, px)
    ensures var p := Carve(h, px, pz);
      var c := Vec3(px, 0.0, pz);
      |p| == 2 && {GetSliceIndex(c, p[0]), GetSliceIndex(c, p[1])} == (if h.center.x >= px then {0, 3} else {1, 2})
  {
    CarveAlongZTiles(h, px, pz);
  }

  /**
    A square rectangle cut by both lines yields four pieces, one in each
    quadrant, so the loose classifier sends the query to every child.
   */
  lemma CarveSquareReachesEveryQuadrant(r: Rect, px: real, pz: real)
    requires CutsX(r, px) && CutsZ(r, pz) && r.size.x == r.size.z
    ensures var p := Carve(r, px, pz);
      var c := Vec3(px, 0.0, pz);
      |p| == 4 && (set i | 0 <= i < 4 :: GetSliceIndex(c, p[i])) == {0, 1, 2, 3}
  {
    var halves := Carve(r, px, r.center.z);
    assert (halves[0].center.x < px) != (halves[1].center.x < px);
    assert CutsZ(halves[0], pz) && CutsZ(halves[1], pz);
    var a := Carve(halves[0], px, pz);
    var b := Carve(halves[1], px, pz);
    PiecesOfHalf(halves[0], px, pz);
    PiecesOfHalf(halves[1], px, pz);
    var p := Carve(r, px, pz);
    assert p == a + b;
    var c := Vec3(px, 0.0, pz);
    var s := set i | 0 <= i < 4 :: GetSliceIndex(c, p[i]);
    assert s == {GetSliceIndex(c, a[0]), GetSliceIndex(c, a[1])} + {GetSliceIndex(c, b[0]), GetSliceIndex(c, b[1])} by {
      assert p[0] == a[0] && p[1] == a[1] && p[2] == b[0] && p[3] == b[1];
    }
  }

  /**
    A wide rectangle (4 by 1) centered at (1, 0.25), cut by the lines
    through the origin, covers x from -1 to 3, yet every piece Carve
    returns lies at x > 0: no piece reaches the left quadrants.
   */
  lemma WideRectangleMissesLeftQuadrants()
    ensures var r := Rect(Vec3(1.0, 0.0, 0.25), Vec3(4.0, 1.0, 1.0));
      var p := Carve(r, 0.0, 0.0);
      r.LoX() < 0.0 && |p| == 4 &&
      forall i :: 0 <= i < 4 ==> GetSliceIndex(Vec3(0.0, 0.0, 0.0), p[i]) in {0, 3}
  {
    var r := Rect(Vec3(1.0, 0.0, 0.25), Vec3(4.0, 1.0, 1.0));
    var halves := Carve(r, 0.0, 0.25);
    assert halves[0].center.x == 0.25 && halves[1].center.x == 0.75;
    var p := Carve(r, 0.0, 0.0);
    assert p == Carve(halves[0], 0.0, 0.0) + Carve(halves[1], 0.0, 0.0);
  }
}
