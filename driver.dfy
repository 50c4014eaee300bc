/**
  The scene driver of CreateQuadTreeWithBounds.cs: `Start` builds the tree
  over the driver's bounds, spawns the objects and inserts them; every frame
  `Update` (here `Tick`) refreshes the tree and moves every object once.

  Unity's `Random.Range` draws are inputs (`Draw`), and the frame time is
  the parameter `dt`.
 */
module Driver {
  import opened Geometry
  import opened Response
  import opened Lists
  import opened QuadTreeCore

  /**
    The clamp limits `Start` gives every object: on each axis, the centers
    at which a cube of side f touches the near and the far wall of the box
    (center c, size).
   */
  function CenterLimits(c: Vec3, size: Vec3, f: real): (l: Vec4)
    ensures l.x - f / 2.0 == Rect(c, size).LoX() && l.y + f / 2.0 == Rect(c, size).HiX()
    ensures l.z - f / 2.0 == Rect(c, size).LoZ() && l.w + f / 2.0 == Rect(c, size).HiZ()
    ensures f <= size.x <==> l.x <= l.y
    ensures f <= size.z <==> l.z <= l.w
  {
    var xLimits := size.x * 0.5 - f * 0.5;
    var yLimits := size.z * 0.5 - f * 0.5;
    Vec4(c.x - xLimits, c.x + xLimits, c.z - yLimits, c.z + yLimits)
  }

  /** The C# cast `(int)d`: truncation toward zero. */
  function Trunc(d: real): (r: int)
    ensures 0.0 <= d ==> 0 <= r && r as real <= d < r as real + 1.0
    ensures d < 0.0 ==> r <= 0 && r as real - 1.0 < d <= r as real
  {
    if d >= 0.0 then d.Floor else -((-d).Floor)
  }

  /** A speed drawn from [1, max] and truncated is a whole number in [1, max]. */
  lemma TruncDraw(d: real, max: real)
    requires 1.0 <= d <= max
    ensures 1 <= Trunc(d) && Trunc(d) as real <= max
  {
  }

  /**
    A spawn position drawn from the ranges `Start` uses (the half extents
    truncated to whole numbers, shrunk by the object's side plus half a unit)
    puts the object's cube strictly between its clamp limits, hence inside
    the tree's box.
   */
  lemma SpawnInside(c: Vec3, size: Vec3, f: real, x: real, z: real)
    requires 0.0 <= f && 0.0 <= size.x && 0.0 <= size.z
    requires c.x - Trunc(size.x * 0.5) as real + f + 0.5 <= x <= c.x + Trunc(size.x * 0.5) as real - f - 0.5
    requires c.z - Trunc(size.z * 0.5) as real + f + 0.5 <= z <= c.z + Trunc(size.z * 0.5) as real - f - 0.5
    ensures var l := CenterLimits(c, size, f);
      l.x < x < l.y && l.z < z < l.w
    ensures Within(Rect(Vec3(x, c.y, z), Vec3(f, f, f)), Rect(c, size))
  {
    var l := CenterLimits(c, size, f);
    assert Trunc(size.x * 0.5) as real <= size.x * 0.5;
    assert Trunc(size.z * 0.5) as real <= size.z * 0.5;
  }

  /**
    Whatever the position and velocity before it, the wall response of a cube
    of side f whose limits come from `CenterLimits` leaves the cube inside
    the box, provided the cube fits in it.
   */
  lemma WallKeepsInside(f: real, b: Rect)
    requires 0.0 <= f <= b.size.x && f <= b.size.z
    ensures forall c: Vec3, v: Vec3 ::
      Within(Rect(WallResponse(c, v, Vec3(f, f, f).Scale(0.5), CenterLimits(b.center, b.size, f), b).0, Vec3(f, f, f)), b)
  {
    var h := Vec3(f, f, f).Scale(0.5);
    var l := CenterLimits(b.center, b.size, f);
    forall c: Vec3, v: Vec3
      ensures Within(Rect(WallResponse(c, v, h, l, b).0, Vec3(f, f, f)), b)
    {
      WallResponseOnX(c, v, h, l, b);
      WallResponseOnZ(c, v, h, l, b);
    }
  }

  /** The objects a sequence holds. */
  ghost function Elems(s: seq<CollisionObject>): set<CollisionObject>
  {
    set o | o in s
  }

  /** One spawn: the two position draws and the two speed draws of one object. */
  datatype Draw = Draw(x: real, z: real, vx: real, vz: real)

  /** The driver component with its tree and its objects. */
  class CreateQuadTreeWithBounds {
    const position: Vec3
    const xWidth: real
    const yWidth: real
    const boundsSizeFactor: real
    const tree: QuadTree
    const objects: seq<CollisionObject>

    ghost function Objects(): set<CollisionObject>
    {
      Elems(objects)
    }

    /** The tree's box: the driver's position and its width and depth. */
    function Bounds(): (b: Rect)
      ensures b.center == position && b.size.x == xWidth && b.size.z == yWidth
    {
      Rect(position, Vec3(xWidth, 1.0, yWidth))
    }

    /** The limits `Start` computes from the tree's box. */
    function Limits(): Vec4
    {
      CenterLimits(position, Bounds().size, boundsSizeFactor)
    }

    /** The tree stores exactly the objects, each once, and keeps its root box. */
    ghost predicate Stored()
      reads tree, Objects()`currentTree, Objects()`depth
    {
      && tree.Members() == Objects()
      && tree.Valid()
      && tree.Bag() == multiset(objects)
      && NoDup(objects)
      && tree.nodes[0].center == position && tree.nodes[0].size == Bounds().size
    }

    /** Every object is a cube of side `boundsSizeFactor` with the common limits. */
    ghost predicate Placed()
      reads Objects()`centerLimits
    {
      forall o | o in objects ::
        && o.size == Vec3(boundsSizeFactor, boundsSizeFactor, boundsSizeFactor)
        && o.halfSize == o.size.Scale(0.5)
        && o.centerLimits == Limits()
    }

    /** The scene is flat: every object rests in the plane y = position.y with no vertical speed. */
    ghost predicate Flat()
      reads Objects()`center, Objects()`velocity
    {
      forall o | o in Objects() :: o.center.y == position.y && o.velocity.y == 0.0
    }

    ghost predicate Valid()
      reads tree, Objects()`currentTree, Objects()`depth, Objects()`center, Objects()`velocity, Objects()`centerLimits
    {
      Stored() && Placed() && Flat()
    }

    /**
      `Start`: the root over (position, (xWidth, 1, yWidth)), one object per
      draw with its center, speed and limits, then every object inserted at
      the root in order.
     */
    constructor Start(position: Vec3, xWidth: real, yWidth: real, boundsSizeFactor: real, draws: seq<Draw>)
      ensures this.position == position && this.xWidth == xWidth && this.yWidth == yWidth
      ensures this.boundsSizeFactor == boundsSizeFactor
      ensures Valid() && |objects| == |draws| && fresh(tree)
      ensures forall i | 0 <= i < |objects| ::
        && objects[i].center == Vec3(draws[i].x, position.y, draws[i].z)
        && objects[i].velocity == Vec3(Trunc(draws[i].vx) as real, 0.0, Trunc(draws[i].vz) as real)
    {
      this.position := position;
      this.xWidth := xWidth;
      this.yWidth := yWidth;
      this.boundsSizeFactor := boundsSizeFactor;
      var t := new QuadTree(position, Vec3(xWidth, 1.0, yWidth));
      var objs := Spawn(position, boundsSizeFactor, CenterLimits(position, Vec3(xWidth, 1.0, yWidth), boundsSizeFactor), draws);
      InsertAll(t, objs);
      tree := t;
      objects := objs;
    }

    /** `Start`'s first loop: one cube of side f per draw, at the drawn spot in the plane y = position.y, with the drawn speeds truncated. */
    static method Spawn(position: Vec3, f: real, limits: Vec4, draws: seq<Draw>) returns (objs: seq<CollisionObject>)
      ensures |objs| == |draws| && NoDup(objs)
      ensures forall j | 0 <= j < |objs| ::
        && fresh(objs[j])
        && objs[j].center == Vec3(draws[j].x, position.y, draws[j].z)
        && objs[j].velocity == Vec3(Trunc(draws[j].vx) as real, 0.0, Trunc(draws[j].vz) as real)
        && objs[j].size == Vec3(f, f, f) && objs[j].halfSize == objs[j].size.Scale(0.5)
        && objs[j].centerLimits == limits
    {
      objs := [];
      var i := 0;
      while i < |draws|
        invariant 0 <= i <= |draws| && |objs| == i && NoDup(objs)
        invariant forall j | 0 <= j < i ::
          && fresh(objs[j])
          && objs[j].center == Vec3(draws[j].x, position.y, draws[j].z)
          && objs[j].velocity == Vec3(Trunc(draws[j].vx) as real, 0.0, Trunc(draws[j].vz) as real)
          && objs[j].size == Vec3(f, f, f) && objs[j].halfSize == objs[j].size.Scale(0.5)
          && objs[j].centerLimits == limits
      {
        var o := new CollisionObject(Vec3(draws[i].x, position.y, draws[i].z), Vec3(f, f, f));
        o.velocity := Vec3(Trunc(draws[i].vx) as real, 0.0, Trunc(draws[i].vz) as real);
        o.centerLimits := limits;
        objs := objs + [o];
        i := i + 1;
      }
    }

    /** `Start`'s second loop: insert every object at the root, in order. */
    static method InsertAll(t: QuadTree, objs: seq<CollisionObject>)
      requires t.Valid() && t.Bag() == multiset{} && NoDup(objs)
      modifies t, (set o | o in objs)`currentTree, (set o | o in objs)`depth
      ensures t.Valid() && t.Bag() == multiset(objs) && t.Members() == Elems(objs)
      ensures Grows(old(t.nodes), t.nodes)
    {
      MembersOfBag(t.nodes);
      var i := 0;
      while i < |objs|
        invariant 0 <= i <= |objs|
        invariant t.Valid() && t.Bag() == multiset(objs[..i]) && t.Members() == Elems(objs[..i])
        invariant Grows(old(t.nodes), t.nodes)
      {
        ghost var before := t.nodes;
        InsertNext(t, objs, i);
        GrowsTrans(old(t.nodes), before, t.nodes);
        i := i + 1;
      }
      assert objs[..i] == objs;
    }

    /** One pass of `Start`'s second loop: object i joins the tree. */
    static method InsertNext(t: QuadTree, objs: seq<CollisionObject>, i: nat)
      requires NoDup(objs) && i < |objs|
      requires t.Valid() && t.Bag() == multiset(objs[..i]) && t.Members() == Elems(objs[..i])
      modifies t, (set o | o in objs)`currentTree, (set o | o in objs)`depth
      ensures t.Valid() && t.Bag() == multiset(objs[..i + 1]) && t.Members() == Elems(objs[..i + 1])
      ensures Grows(old(t.nodes), t.nodes)
    {
      assert objs[..i + 1] == objs[..i] + [objs[i]];
      t.Insert(0, objs[i]);
    }

    /**
      `Update`, once per frame: refresh the tree from the root, then move each
      object in order. The tree keeps its objects and its shape, the scene
      stays in its plane, and when the cubes fit in the box every object
      ends the frame inside it.
     */
    method Tick(dt: real)
      requires Valid()
      modifies tree, Objects()`currentTree, Objects()`depth, Objects()`center, Objects()`velocity
      ensures Valid() && Grows(old(tree.nodes), tree.nodes)
      ensures 0.0 <= boundsSizeFactor <= xWidth && boundsSizeFactor <= yWidth ==>
        forall j | 0 <= j < |objects| :: Within(objects[j].Box(), Bounds())
    {
      tree.Refresh(0);
      ghost var refreshed := tree.nodes;
      ghost var fits := 0.0 <= boundsSizeFactor <= xWidth && boundsSizeFactor <= yWidth;
      if fits {
        WallKeepsInside(boundsSizeFactor, Bounds());
      }
      var i := 0;
      while i < |objects|
        invariant 0 <= i <= |objects|
        invariant Valid() && tree.nodes == refreshed
        invariant fits ==> forall j | 0 <= j < i :: Within(objects[j].Box(), Bounds())
        invariant forall j | i <= j < |objects| :: objects[j].center == old(objects[j].center)
      {
        MoveNext(i, dt, fits);
        i := i + 1;
      }
    }

    /** `Move` of object i as `Tick`'s loop needs it: the objects before i stay inside, the ones after keep their centers. */
    method MoveNext(i: nat, dt: real, ghost fits: bool)
      requires Valid() && i < |objects|
      requires fits == (0.0 <= boundsSizeFactor <= xWidth && boundsSizeFactor <= yWidth)
      requires fits ==> forall j | 0 <= j < i :: Within(objects[j].Box(), Bounds())
      modifies Objects()`center, Objects()`velocity
      ensures Valid() && tree.nodes == old(tree.nodes)
      ensures fits ==> forall j | 0 <= j <= i :: Within(objects[j].Box(), Bounds())
      ensures forall j | 0 <= j < |objects| && j != i :: objects[j].center == old(objects[j].center)
    {
      Move(i, dt);
    }

    /**
      One pass of `Update`'s loop: object i moves by dt, sweeps the tree's
      candidates for its moved box, and is kept inside the walls; the other
      objects take the velocities that sweep gave them and keep their centers.
     */
    method Move(i: nat, dt: real)
      requires Valid() && i < |objects|
      modifies Objects()`center, Objects()`velocity
      ensures Stored() && Placed() && Flat() && tree.nodes == old(tree.nodes)
      ensures forall c | c in Candidates(tree.nodes, 0, Rect(old(objects[i].center).Plus(old(objects[i].velocity).Scale(dt)), objects[i].size)) ::
        c in Objects()
      ensures var o := objects[i];
        var moved := old(o.center).Plus(old(o.velocity).Scale(dt));
        var vel := Sweep(o, moved, Candidates(tree.nodes, 0, Rect(moved, o.size)), old(Centers(Objects())), old(Velocities(Objects())));
        (o.center, o.velocity) == WallResponse(moved, vel[o], o.halfSize, o.centerLimits, Bounds()) &&
        forall j | 0 <= j < |objects| && j != i :: objects[j].velocity == vel[objects[j]]
      ensures forall j | 0 <= j < |objects| && j != i :: objects[j].center == old(objects[j].center)
      ensures 0.0 <= boundsSizeFactor <= xWidth && boundsSizeFactor <= yWidth ==> Within(objects[i].Box(), Bounds())
    {
      var o := objects[i];
      OwnedMember(tree.nodes, o);
      assert o in Objects();
      ghost var y := o.center.y + dt * o.velocity.y;
      assert y == position.y;
      assert tree.Members() + {o} == Objects();
      assert Rect(tree.nodes[0].center, tree.nodes[0].size) == Bounds();
      o.Update(tree, dt);
      assert o.center.y == y;
      if 0.0 <= boundsSizeFactor <= xWidth && boundsSizeFactor <= yWidth {
        WallKeepsInside(boundsSizeFactor, Bounds());
      }
    }
  }
}
