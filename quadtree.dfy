/**
  The quadtree of QuadTree.cs and the `CollisionObject`s it stores.

  The source links `QuadTree` objects by reference (`childNodes`,
  `rootTree`). Here the whole tree is one `QuadTree` object holding an arena
  `nodes` of node records: node 0 is the root, a node's children are indices
  into the arena, and "node k's list" is the source's `objectsList` of the
  `QuadTree` instance k. Nodes are only ever appended, and a child is always
  appended after its parent, so child indices exceed their parent's index.
 */
module QuadTreeCore {
  import opened Geometry
  import opened Quadrants
  import opened Carving
  import opened Response
  import opened Lists
  import opened Wrappers

  /** `MAX_Objects`: a leaf above the deepest level holds at most this many objects. */
  const MaxObjects := 10
  /** `MAX_Depth`: nodes at this depth never split. */
  const MaxDepth := 5

  /**
    A moving box. `size` and the derived `halfSize` are fixed at construction;
    `currentTree` is the arena index of the node whose list holds the object.
   */
  class CollisionObject {
    const size: Vec3
    const halfSize: Vec3
    var center: Vec3
    var velocity: Vec3
    /** The center's clamp limits: x/y on the x axis, z/w on the z axis. */
    var centerLimits: Vec4
    var depth: int
    var currentTree: Option<nat>

    constructor (center: Vec3, size: Vec3)
      ensures this.center == center && this.size == size && halfSize == size.Scale(0.5)
      ensures velocity == Zero && centerLimits == Vec4(0.0, 0.0, 0.0, 0.0)
      ensures depth == 0 && currentTree == None
    {
      this.size := size;
      this.center := center;
      halfSize := size.Scale(0.5);
      velocity := Zero;
      centerLimits := Vec4(0.0, 0.0, 0.0, 0.0);
      depth := 0;
      currentTree := None;
    }

    /** The box the tree classifies: the current center and the size. */
    function Box(): Rect
      reads this`center
    {
      Rect(center, size)
    }

    method SetDepth(d: int)
      modifies this`depth
      ensures depth == d
    {
      depth := d;
    }

    method SetCurrentTree(k: nat)
      modifies this`currentTree
      ensures currentTree == Some(k)
    {
      currentTree := Some(k);
    }

    /** `Collide(CollisionObject)`: this object's velocity after meeting object2, read before the change. */
    method Collide(object2: CollisionObject)
      modifies this`velocity
      ensures velocity == CollideVelocity(center, halfSize, old(velocity), object2.center, object2.halfSize, old(object2.velocity))
    {
      var lengthSum := halfSize.x + object2.halfSize.x;
      var widthSum := halfSize.z + object2.halfSize.z;
      var dx := Abs(center.x - object2.center.x);
      var dy := Abs(center.z - object2.center.z);
      var dLength := lengthSum - dx;
      var dWidth := widthSum - dy;
      var onHorizontal := dLength >= 0.0;
      var onVertical := dWidth >= 0.0;
      if onHorizontal {
        var direction: real := if center.x > object2.center.x then 1.0 else -1.0;
        velocity := velocity.(x := direction * (Abs(velocity.x) + Abs(object2.velocity.x)) * 0.5);
      }
      if onVertical {
        var direction: real := if center.z > object2.center.z then 1.0 else -1.0;
        velocity := velocity.(z := direction * (Abs(velocity.z) + Abs(object2.velocity.z)) * 0.5);
      }
    }

    /** `Collide(Bounds)`: bounce off the walls of `bounds`, pinning the center to the clamp limits. */
    method CollideBounds(bounds: Rect)
      modifies this`center, this`velocity
      ensures (center, velocity) == WallResponse(old(center), old(velocity), halfSize, centerLimits, bounds)
    {
      var centerTmp := center;
      if Abs(center.x - bounds.center.x) + halfSize.x >= bounds.size.x * 0.5 {
        velocity := velocity.(x := velocity.x * -1.0);
        center := center.(x := if center.x < bounds.center.x then centerLimits.x else centerLimits.y);
        center := center.(y := centerTmp.y);
      }
      if Abs(center.z - bounds.center.z) + halfSize.z >= bounds.size.z * 0.5 {
        velocity := velocity.(z := velocity.z * -1.0);
        center := center.(z := if center.z < bounds.center.z then centerLimits.z else centerLimits.w);
        center := center.(y := centerTmp.y);
      }
    }

    /**
      `IsCollide`: when the two boxes overlap, object1 collides with
      object2 and then object2 with object1, so object2 reads object1's new
      velocity. Passing one object twice makes it collide with itself twice.
     */
    static method IsCollide(object1: CollisionObject, object2: CollisionObject)
      modifies object1`velocity, object2`velocity
      ensures object1 != object2 ==>
        (object1.velocity, object2.velocity) ==
        Bounce(object1.center, object1.halfSize, old(object1.velocity), object2.center, object2.halfSize, old(object2.velocity))
      ensures object1 == object2 ==>
        var c, h, v := object1.center, object1.halfSize, old(object1.velocity);
        var n1 := CollideVelocity(c, h, v, c, h, v);
        object1.velocity == if Overlap(c, h, c, h) then CollideVelocity(c, h, n1, c, h, n1) else v
    {
      if Abs(object1.center.x - object2.center.x) <= object1.halfSize.x + object2.halfSize.x &&
         Abs(object1.center.z - object2.center.z) <= object1.halfSize.z + object2.halfSize.z {
        object1.Collide(object2);
        object2.Collide(object1);
      }
    }

    /** The loop of `Update`: `IsCollide(this, c)` for each c of cands other than this, in order. */
    method CollideAll(cands: seq<CollisionObject>, ghost others: set<CollisionObject>, ghost pos: map<CollisionObject, Vec3>)
      requires forall o | o in cands :: o in others && o in pos
      requires forall o | o in pos && o != this :: o.center == pos[o]
      modifies this`velocity, others`velocity
      ensures forall o | o in others + {this} ::
        o.velocity == Sweep(this, center, cands, pos, old(Velocities(others + {this})))[o]
    {
      ghost var vel0 := Velocities(others + {this});
      var i := 0;
      while i < |cands|
        invariant 0 <= i <= |cands|
        invariant forall o | o in vel0 :: o.velocity == Sweep(this, center, cands[..i], pos, vel0)[o]
      {
        assert cands[..i + 1][..i] == cands[..i];
        if cands[i] != this {
          IsCollide(this, cands[i]);
        }
        i := i + 1;
      }
      assert cands[..i] == cands;
    }

    /**
      `Update` for one tick of length dt: move by velocity * dt, collide
      with every candidate the root's `Retrieve` reports other than this
      object itself, in order, then bounce off the root's walls.
     */
    method Update(tree: QuadTree, dt: real)
      requires tree.Valid() && currentTree.Some? && currentTree.value < |tree.nodes|
      modifies this`center, this`velocity, tree.Members()`velocity
      ensures forall o | o in Candidates(tree.nodes, 0, Rect(old(center).Plus(old(velocity).Scale(dt)), size)) :: o in tree.Members()
      ensures var moved := old(center).Plus(old(velocity).Scale(dt));
        var vel := Sweep(this, moved, Candidates(tree.nodes, 0, Rect(moved, size)),
                         old(Centers(tree.Members())), old(Velocities(tree.Members() + {this})));
        (center, velocity) == WallResponse(moved, vel[this], halfSize, centerLimits, Rect(tree.nodes[0].center, tree.nodes[0].size)) &&
        forall o | o in tree.Members() && o != this :: o.velocity == vel[o]
      ensures center.y == old(center.y + dt * velocity.y) && velocity.y == old(velocity.y)
      ensures forall o | o in tree.Members() :: o.velocity.y == old(o.velocity.y)
    {
      ghost var pos0 := Centers(tree.Members());
      ghost var vel0 := Velocities(tree.Members() + {this});
      center := center.Plus(velocity.Scale(dt));
      ghost var moved := center;
      assert NodeShape(tree.nodes, currentTree.value);
      var root := tree.nodes[currentTree.value].rootTree.value;
      assert root == 0;
      var tempList := tree.Retrieve(root, this);
      assert tempList == Candidates(tree.nodes, 0, Rect(moved, size));
      CandidatesStored(tree.nodes, root, Box());
      assert Velocities(tree.Members() + {this}) == vel0;
      CollideAll(tempList, tree.Members(), pos0);
      ghost var vel := Sweep(this, moved, tempList, pos0, vel0);
      assert forall o | o in tree.Members() + {this} :: o.velocity == vel[o];
      SweepKeepsY(this, moved, tempList, pos0, vel0);
      CollideBounds(Rect(tree.nodes[root].center, tree.nodes[root].size));
    }
  }

  /** The centers of the objects of s. */
  ghost function Centers(s: set<CollisionObject>): (r: map<CollisionObject, Vec3>)
    reads s`center
    ensures r.Keys == s && forall o | o in s :: r[o] == o.center
  {
    map o | o in s :: o.center
  }

  /** The velocities of the objects of s. */
  ghost function Velocities(s: set<CollisionObject>): (r: map<CollisionObject, Vec3>)
    reads s`velocity
    ensures r.Keys == s && forall o | o in s :: r[o] == o.velocity
  {
    map o | o in s :: o.velocity
  }

  /**
    The velocities after `Update`'s collision loop, starting from vel:
    `IsCollide(self, c)` for each candidate c other than self, in order,
    self standing at selfCenter and every other object at its center in pos.
   */
  ghost function Sweep(self: CollisionObject, selfCenter: Vec3, cands: seq<CollisionObject>,
                       pos: map<CollisionObject, Vec3>, vel: map<CollisionObject, Vec3>): (r: map<CollisionObject, Vec3>)
    requires self in vel && forall o | o in cands :: o in vel && o in pos
    ensures r.Keys == vel.Keys
    decreases |cands|
  {
    if cands == [] then vel
    else
      var v := Sweep(self, selfCenter, cands[..|cands| - 1], pos, vel);
      var o := cands[|cands| - 1];
      if o == self then v
      else
        var (n1, n2) := Bounce(selfCenter, self.halfSize, v[self], pos[o], o.halfSize, v[o]);
        v[self := n1][o := n2]
  }

  /** An object that is neither self nor a candidate keeps its velocity through the sweep. */
  lemma {:induction false} SweepKeepsOthers(self: CollisionObject, selfCenter: Vec3, cands: seq<CollisionObject>,
                                            pos: map<CollisionObject, Vec3>, vel: map<CollisionObject, Vec3>, o: CollisionObject)
    requires self in vel && forall c | c in cands :: c in vel && c in pos
    requires o in vel && o != self && o !in cands
    ensures Sweep(self, selfCenter, cands, pos, vel)[o] == vel[o]
    decreases |cands|
  {
    if cands != [] {
      var init := cands[..|cands| - 1];
      assert forall c | c in init :: c in cands;
      SweepKeepsOthers(self, selfCenter, init, pos, vel, o);
    }
  }

  /** The sweep never changes a velocity's y component. */
  lemma {:induction false} SweepKeepsY(self: CollisionObject, selfCenter: Vec3, cands: seq<CollisionObject>,
                                       pos: map<CollisionObject, Vec3>, vel: map<CollisionObject, Vec3>)
    requires self in vel && forall c | c in cands :: c in vel && c in pos
    ensures var r := Sweep(self, selfCenter, cands, pos, vel);
      forall o | o in vel :: r[o].y == vel[o].y
    decreases |cands|
  {
    if cands != [] {
      var init := cands[..|cands| - 1];
      assert forall c | c in init :: c in cands;
      SweepKeepsY(self, selfCenter, init, pos, vel);
    }
  }

  /** When self overlaps none of the other candidates, the sweep changes no velocity at all. */
  lemma {:induction false} SweepWithoutContact(self: CollisionObject, selfCenter: Vec3, cands: seq<CollisionObject>,
                                               pos: map<CollisionObject, Vec3>, vel: map<CollisionObject, Vec3>)
    requires self in vel && forall c | c in cands :: c in vel && c in pos
    requires forall c | c in cands && c != self :: !Overlap(selfCenter, self.halfSize, pos[c], c.halfSize)
    ensures Sweep(self, selfCenter, cands, pos, vel) == vel
    decreases |cands|
  {
    if cands != [] {
      var init := cands[..|cands| - 1];
      assert forall c | c in init :: c in cands;
      SweepWithoutContact(self, selfCenter, init, pos, vel);
      var o := cands[|cands| - 1];
      if o != self {
        assert vel[self := vel[self]][o := vel[o]] == vel;
      }
    }
  }

  /** One `QuadTree` instance of the source: its box, depth, list, children and root. */
  datatype Node = Node(center: Vec3, size: Vec3, depth: int,
                       objectsList: seq<CollisionObject>, childNodes: seq<nat>,
                       rootTree: Option<nat>)

  /** The `QuadTree` constructor for the node stored at arena index `self`: only depth -1 makes a node its own root. */
  function MakeNode(center: Vec3, size: Vec3, depth: int, self: nat): (n: Node)
    ensures n.objectsList == [] && n.childNodes == []
    ensures n.center == center && n.size == size && n.depth == depth
    ensures n.rootTree == if depth == -1 then Some(self) else None
  {
    Node(center, size, depth, [], [], if depth == -1 then Some(self) else None)
  }

  /** c is child q of p: the box `Split` computes for q, one level deeper. */
  ghost predicate IsChild(p: Node, c: Node, q: int)
  {
    0 <= q < 4 &&
    c.center == ChildBox(p.center, p.size, q).center &&
    c.size == ChildBox(p.center, p.size, q).size &&
    c.depth == p.depth + 1
  }

  /** The structural invariant of node k. */
  ghost predicate NodeShape(ns: seq<Node>, k: nat)
    requires k < |ns|
  {
    var n := ns[k];
    && n.rootTree == Some(0)
    && -1 <= n.depth <= MaxDepth
    && (|n.childNodes| == 0 || |n.childNodes| == 4)
    && (n.childNodes != [] ==> n.depth < MaxDepth)
    && (n.childNodes == [] && n.depth < MaxDepth ==> |n.objectsList| <= MaxObjects)
    && (forall q | 0 <= q < |n.childNodes| :: k < n.childNodes[q] < |ns| && IsChild(n, ns[n.childNodes[q]], q))
    && NoDup(n.objectsList)
  }

  /** The arena forms a quadtree rooted at node 0 (depth -1). */
  ghost predicate Shaped(ns: seq<Node>)
  {
    |ns| > 0 && ns[0].depth == -1 && forall k | 0 <= k < |ns| :: NodeShape(ns, k)
  }

  /** Every object stored anywhere in the arena. */
  ghost function MembersOf(ns: seq<Node>): set<CollisionObject>
  {
    set k, o | 0 <= k < |ns| && o in ns[k].objectsList :: o
  }

  /** All lists of the arena, counted with multiplicity. */
  ghost function BagOf(ns: seq<Node>): multiset<CollisionObject>
  {
    if ns == [] then multiset{} else BagOf(ns[..|ns| - 1]) + multiset(ns[|ns| - 1].objectsList)
  }

  /** Each stored object records the node that holds it and that node's depth. */
  ghost predicate Owned(ns: seq<Node>)
    reads MembersOf(ns)`currentTree, MembersOf(ns)`depth
  {
    forall k, o | 0 <= k < |ns| && o in ns[k].objectsList :: o.currentTree == Some(k) && o.depth == ns[k].depth
  }

  /**
    From `before` to `after` nodes were only appended, and a node only gained
    children when it had none, all of them appended; geometry never changes.
   */
  ghost predicate Grows(before: seq<Node>, after: seq<Node>)
  {
    |before| <= |after| &&
    forall k | 0 <= k < |before| ::
      after[k].center == before[k].center && after[k].size == before[k].size &&
      after[k].depth == before[k].depth && after[k].rootTree == before[k].rootTree &&
      (after[k].childNodes == before[k].childNodes || (before[k].childNodes == [] && NewIndices(after[k].childNodes, |before|)))
  }

  /** Every index in cs lies at or past `bound`. */
  ghost predicate NewIndices(cs: seq<nat>, bound: nat)
  {
    forall q | 0 <= q < |cs| :: bound <= cs[q]
  }

  /**
    The effect of inserting obj on the nodes that existed before: a node
    that did not split kept its list, or gained obj at the end; a node that
    split was a leaf above the deepest level holding at least `MaxObjects`.
   */
  ghost predicate Settles(before: seq<Node>, after: seq<Node>, obj: CollisionObject)
    requires |before| <= |after|
  {
    forall k | 0 <= k < |before| ::
      if after[k].childNodes == before[k].childNodes then
        after[k].objectsList == before[k].objectsList || after[k].objectsList == before[k].objectsList + [obj]
      else
        before[k].childNodes == [] && before[k].depth < MaxDepth && |before[k].objectsList| >= MaxObjects
  }

  /** Below index `bound`, a node whose children did not change kept its old list as a prefix of its new one. */
  ghost predicate Keeps(before: seq<Node>, after: seq<Node>, bound: nat)
  {
    forall k | 0 <= k < bound && k < |before| && k < |after| && after[k].childNodes == before[k].childNodes ::
      before[k].objectsList <= after[k].objectsList
  }

  /** m is k, or k lies below m: a chain of child links leads from m to k. */
  ghost predicate Descends(ns: seq<Node>, m: nat, k: nat)
    decreases k - m
  {
    m == k ||
    (m < k && m < |ns| &&
     exists q :: 0 <= q < |ns[m].childNodes| && m < ns[m].childNodes[q] <= k && Descends(ns, ns[m].childNodes[q], k))
  }

  /** No object is stored in two nodes (it follows from `Owned`, which names one node per object). */
  ghost predicate Unique(ns: seq<Node>)
  {
    forall k, k', o | 0 <= k < |ns| && 0 <= k' < |ns| && o in ns[k].objectsList && o in ns[k'].objectsList :: k == k'
  }

  /**
    From `before` to `after` objects only moved down the tree: an object
    stored in node k before and in node k' after has k' at or below k.
   */
  ghost predicate Sinks(before: seq<Node>, after: seq<Node>)
  {
    forall k, k', o | 0 <= k < |before| && 0 <= k' < |after| && o in before[k].objectsList && o in after[k'].objectsList ::
      Descends(after, k, k')
  }

  /**
    Node k is settled: when it has children, no child's quadrant strictly
    contains any object of its list, so `Insert` would leave each of them
    where it is.
   */
  ghost predicate SettledAt(ns: seq<Node>, k: nat)
    requires k < |ns|
    reads MembersOf(ns)`center
  {
    ns[k].childNodes != [] ==> forall o | o in ns[k].objectsList :: GetIndex(ns[k].center, ns[k].size, o.Box()) == -1
  }

  /** Every node settled in `before`, and every node appended since, is settled in `after`. */
  ghost predicate StaysSettled(before: seq<Node>, after: seq<Node>)
    reads MembersOf(before)`center, MembersOf(after)`center
  {
    forall k | 0 <= k < |after| && (k < |before| ==> SettledAt(before, k)) :: SettledAt(after, k)
  }

  lemma DescendsOrder(ns: seq<Node>, m: nat, k: nat)
    requires Descends(ns, m, k)
    ensures m <= k
  {
  }

  /** Node c, child q of m, and everything below it lie below m. */
  lemma DescendsChild(ns: seq<Node>, m: nat, q: nat, k: nat)
    requires m < |ns| && q < |ns[m].childNodes| && m < ns[m].childNodes[q]
    requires Descends(ns, ns[m].childNodes[q], k)
    ensures Descends(ns, m, k)
  {
    DescendsOrder(ns, ns[m].childNodes[q], k);
  }

  /** Paths survive growth: links of nodes that have children never change. */
  lemma {:induction false} DescendsGrows(a: seq<Node>, b: seq<Node>, m: nat, k: nat)
    requires Grows(a, b) && Descends(a, m, k)
    ensures Descends(b, m, k)
    decreases k - m
  {
    if m != k {
      var q :| 0 <= q < |a[m].childNodes| && m < a[m].childNodes[q] <= k && Descends(a, a[m].childNodes[q], k);
      DescendsGrows(a, b, a[m].childNodes[q], k);
      assert b[m].childNodes == a[m].childNodes;
      DescendsChild(b, m, q, k);
    }
  }

  /** Paths between old nodes already existed: the children a node gains are all new nodes. */
  lemma {:induction false} DescendsShrink(a: seq<Node>, b: seq<Node>, m: nat, k: nat)
    requires Grows(a, b) && k < |a| && Descends(b, m, k)
    ensures Descends(a, m, k)
    decreases k - m
  {
    if m != k {
      var q :| 0 <= q < |b[m].childNodes| && m < b[m].childNodes[q] <= k && Descends(b, b[m].childNodes[q], k);
      assert a[m].childNodes == b[m].childNodes;
      DescendsShrink(a, b, b[m].childNodes[q], k);
      DescendsChild(a, m, q, k);
    }
  }

  lemma {:induction false} DescendsTrans(ns: seq<Node>, a: nat, b: nat, c: nat)
    requires Descends(ns, a, b) && Descends(ns, b, c)
    ensures Descends(ns, a, c)
    decreases b - a
  {
    if a != b {
      var q :| 0 <= q < |ns[a].childNodes| && a < ns[a].childNodes[q] <= b && Descends(ns, ns[a].childNodes[q], b);
      DescendsTrans(ns, ns[a].childNodes[q], b, c);
      DescendsChild(ns, a, q, c);
    }
  }

  lemma OwnedUnique(ns: seq<Node>)
    requires Owned(ns)
    ensures Unique(ns)
  {
    forall k, k', o | 0 <= k < |ns| && 0 <= k' < |ns| && o in ns[k].objectsList && o in ns[k'].objectsList
      ensures k == k'
    {
      assert o.currentTree == Some(k) && o.currentTree == Some(k');
    }
  }

  /** Sinking composes along a growing arena, for objects that stay stored. */
  lemma SinksTrans(a: seq<Node>, b: seq<Node>, c: seq<Node>)
    requires Sinks(a, b) && Sinks(b, c) && Grows(b, c) && MembersOf(a) <= MembersOf(b)
    ensures Sinks(a, c)
  {
    forall k, k'', o | 0 <= k < |a| && 0 <= k'' < |c| && o in a[k].objectsList && o in c[k''].objectsList
      ensures Descends(c, k, k'')
    {
      assert o in MembersOf(a);
      var k' :| 0 <= k' < |b| && o in b[k'].objectsList;
      DescendsGrows(b, c, k, k');
      DescendsTrans(c, k, k', k'');
    }
  }

  /** Lists that only changed at node n, where nothing already stored arrived, leave every object in place. */
  lemma SinksInPlace(before: seq<Node>, after: seq<Node>, n: nat)
    requires Unique(before) && n < |before| <= |after|
    requires forall k | 0 <= k < |after| && k != n :: after[k].objectsList == (if k < |before| then before[k].objectsList else [])
    requires forall o | o in after[n].objectsList && o in MembersOf(before) :: o in before[n].objectsList
    ensures Sinks(before, after)
  {
    forall k, k', o | 0 <= k < |before| && 0 <= k' < |after| && o in before[k].objectsList && o in after[k'].objectsList
      ensures Descends(after, k, k')
    {
      assert o in MembersOf(before);
      assert k' < |before| && o in before[k'].objectsList;
    }
  }

  /** Appending a new object to node n's list moves nothing, and the new object is stored only at n. */
  lemma AppendSinks(ns: seq<Node>, n: nat, obj: CollisionObject)
    requires Unique(ns) && n < |ns| && obj !in MembersOf(ns)
    ensures var after := ns[n := ns[n].(objectsList := ns[n].objectsList + [obj])];
      Sinks(ns, after) && forall k | 0 <= k < |after| && obj in after[k].objectsList :: k == n
  {
    var after := ns[n := ns[n].(objectsList := ns[n].objectsList + [obj])];
    forall k | 0 <= k < |after| && k != n ensures obj !in after[k].objectsList {
      assert after[k] == ns[k];
    }
    SinksInPlace(ns, after, n);
  }

  /**
    The object at position i of node n's list was taken out and inserted
    below n; everything else moved down from where it was.
   */
  lemma SinksAfterMove(before: seq<Node>, mid: seq<Node>, after: seq<Node>, n: nat, i: nat)
    requires Unique(before) && n < |before| && i < |before[n].objectsList|
    requires mid == before[n := before[n].(objectsList := before[n].objectsList[..i] + before[n].objectsList[i + 1..])]
    requires Sinks(mid, after)
    requires forall k | 0 <= k < |after| && before[n].objectsList[i] in after[k].objectsList :: Descends(after, n, k)
    ensures Sinks(before, after)
  {
    forall k, k', o | 0 <= k < |before| && 0 <= k' < |after| && o in before[k].objectsList && o in after[k'].objectsList
      ensures Descends(after, k, k')
    {
      if o == before[n].objectsList[i] {
        assert k == n;
      } else {
        StillListed(before, mid, n, i, k, o);
      }
    }
  }

  /** Dropping position i of node n's list keeps every other object where it was. */
  lemma StillListed(before: seq<Node>, mid: seq<Node>, n: nat, i: nat, k: nat, o: CollisionObject)
    requires n < |before| && i < |before[n].objectsList| && k < |before|
    requires mid == before[n := before[n].(objectsList := before[n].objectsList[..i] + before[n].objectsList[i + 1..])]
    requires o in before[k].objectsList && o != before[n].objectsList[i]
    ensures o in mid[k].objectsList
  {
    if k == n {
      var l := before[n].objectsList;
      var j :| 0 <= j < |l| && l[j] == o;
      assert o == (l[..i] + l[i + 1..])[if j < i then j else j - 1];
    }
  }

  lemma {:induction false} BagOfUpdate(ns: seq<Node>, k: nat, s: seq<CollisionObject>)
    requires k < |ns|
    ensures BagOf(ns[k := ns[k].(objectsList := s)]) + multiset(ns[k].objectsList) == BagOf(ns) + multiset(s)
    decreases |ns|
  {
    var ns' := ns[k := ns[k].(objectsList := s)];
    var last := |ns| - 1;
    var p, p' := ns[..last], ns'[..last];
    assert ns == p + [ns[last]] && ns' == p' + [ns'[last]];
    var tail, tail' := multiset(ns[last].objectsList), multiset(ns'[last].objectsList);
    assert BagOf(ns) == BagOf(p) + tail;
    assert BagOf(ns') == BagOf(p') + tail';
    if k == last {
      assert p' == p;
    } else {
      assert p' == p[k := p[k].(objectsList := s)];
      assert tail' == tail && p[k] == ns[k];
      BagOfUpdate(p, k, s);
      var a, b, m, ms := BagOf(p'), BagOf(p), multiset(ns[k].objectsList), multiset(s);
      assert a + m == b + ms;
      assert (a + tail) + m == (a + m) + tail == (b + ms) + tail == (b + tail) + ms;
    }
  }

  lemma {:induction false} BagOfAppendEmpty(ns: seq<Node>, extra: seq<Node>)
    requires forall j | 0 <= j < |extra| :: extra[j].objectsList == []
    ensures BagOf(ns + extra) == BagOf(ns)
    decreases |extra|
  {
    if extra != [] {
      var e := extra[..|extra| - 1];
      var all := ns + extra;
      assert all[..|all| - 1] == ns + e;
      assert all[|all| - 1].objectsList == [];
      assert BagOf(all) == BagOf(ns + e) + multiset(all[|all| - 1].objectsList);
      BagOfAppendEmpty(ns, e);
    } else {
      assert ns + extra == ns;
    }
  }

  lemma {:induction false} MembersOfBag(ns: seq<Node>)
    ensures forall o :: o in MembersOf(ns) <==> o in BagOf(ns)
    decreases |ns|
  {
    if ns != [] {
      var p := ns[..|ns| - 1];
      MembersOfBag(p);
      forall o ensures o in MembersOf(ns) <==> o in MembersOf(p) || o in ns[|ns| - 1].objectsList {
        if o in MembersOf(ns) {
          var k :| 0 <= k < |ns| && o in ns[k].objectsList;
          if k < |p| {
            assert p[k] == ns[k];
          }
        }
        if o in MembersOf(p) {
          var k :| 0 <= k < |p| && o in p[k].objectsList;
          assert ns[k] == p[k];
        }
      }
    }
  }

  /** Bag and members depend on the lists alone. */
  lemma {:induction false} ListsOnly(a: seq<Node>, b: seq<Node>)
    requires |a| == |b| && forall k | 0 <= k < |a| :: a[k].objectsList == b[k].objectsList
    ensures BagOf(a) == BagOf(b) && MembersOf(a) == MembersOf(b)
    decreases |a|
  {
    if a != [] {
      ListsOnly(a[..|a| - 1], b[..|b| - 1]);
    }
  }

  /** Replacing one list keeps the tree shaped when the new list has no duplicates and respects the leaf capacity. */
  lemma ShapedAfterListChange(ns: seq<Node>, k: nat, s: seq<CollisionObject>)
    requires Shaped(ns) && k < |ns| && NoDup(s)
    requires ns[k].childNodes == [] && ns[k].depth < MaxDepth ==> |s| <= MaxObjects
    ensures Shaped(ns[k := ns[k].(objectsList := s)])
  {
    var ns' := ns[k := ns[k].(objectsList := s)];
    forall j | 0 <= j < |ns'| ensures NodeShape(ns', j) {
      assert NodeShape(ns, j);
      forall q | 0 <= q < |ns'[j].childNodes| ensures IsChild(ns'[j], ns'[ns'[j].childNodes[q]], q) {
        assert IsChild(ns[j], ns[ns[j].childNodes[q]], q);
      }
    }
  }

  /** Replacing one list keeps ownership when every object of the new list records that node. */
  lemma OwnedAfterListChange(ns: seq<Node>, k: nat, s: seq<CollisionObject>)
    requires Owned(ns) && k < |ns|
    requires forall o | o in s :: o.currentTree == Some(k) && o.depth == ns[k].depth
    ensures Owned(ns[k := ns[k].(objectsList := s)])
  {
  }

  /** Appending obj to node n's list adds exactly obj to the bag. */
  lemma BagOfAppend(ns: seq<Node>, n: nat, obj: CollisionObject)
    requires n < |ns|
    ensures BagOf(ns[n := ns[n].(objectsList := ns[n].objectsList + [obj])]) == BagOf(ns) + multiset{obj}
  {
    var l := ns[n].objectsList;
    BagOfUpdate(ns, n, l + [obj]);
    var a := BagOf(ns[n := ns[n].(objectsList := l + [obj])]);
    assert multiset(l + [obj]) == multiset(l) + multiset{obj};
    assert a + multiset(l) == (BagOf(ns) + multiset{obj}) + multiset(l);
    Cancel(a, BagOf(ns) + multiset{obj}, multiset(l));
  }

  /** Appending obj to node n's list adds exactly obj to the members. */
  lemma MembersAppend(ns: seq<Node>, n: nat, obj: CollisionObject)
    requires n < |ns|
    ensures MembersOf(ns[n := ns[n].(objectsList := ns[n].objectsList + [obj])]) == MembersOf(ns) + {obj}
  {
    var ns' := ns[n := ns[n].(objectsList := ns[n].objectsList + [obj])];
    forall o | o in MembersOf(ns') ensures o in MembersOf(ns) + {obj} {
      var k :| 0 <= k < |ns'| && o in ns'[k].objectsList;
      if o != obj {
        assert o in ns[k].objectsList;
      }
    }
    forall o | o in MembersOf(ns) + {obj} ensures o in MembersOf(ns') {
      if o == obj {
        assert obj in ns'[n].objectsList;
      } else {
        var k :| 0 <= k < |ns| && o in ns[k].objectsList;
        assert o in ns'[k].objectsList;
      }
    }
  }

  /**
    After `Split` of the leaf n, whose list is now l, the arena is a
    quadtree again: n has its four children and they are empty leaves.
   */
  lemma SplitShaped(ns: seq<Node>, n: nat, l: seq<CollisionObject>, after: seq<Node>)
    requires Shaped(ns) && n < |ns| && ns[n].childNodes == [] && ns[n].depth < MaxDepth && NoDup(l)
    requires var m := |ns|;
      |after| == m + 4 &&
      after[..m] == ns[n := ns[n].(objectsList := l, childNodes := [m, m + 1, m + 2, m + 3])] &&
      forall q | 0 <= q < 4 ::
        var b := ChildBox(ns[n].center, ns[n].size, q);
        after[m + q] == Node(b.center, b.size, ns[n].depth + 1, [], [], ns[n].rootTree)
    ensures Shaped(after)
  {
    var m := |ns|;
    assert NodeShape(ns, n);
    forall k | 0 <= k < |after| ensures NodeShape(after, k) {
      if k >= m {
        var q := k - m;
        var b := ChildBox(ns[n].center, ns[n].size, q);
        assert after[m + q] == Node(b.center, b.size, ns[n].depth + 1, [], [], ns[n].rootTree);
      } else if k == n {
        assert after[n] == after[..m][n];
        forall q | 0 <= q < 4 ensures IsChild(after[n], after[after[n].childNodes[q]], q) {
          var b := ChildBox(ns[n].center, ns[n].size, q);
          assert after[n].childNodes[q] == m + q;
          assert after[m + q] == Node(b.center, b.size, ns[n].depth + 1, [], [], ns[n].rootTree);
        }
      } else {
        assert after[k] == after[..m][k] == ns[k];
        assert NodeShape(ns, k);
        forall q | 0 <= q < |after[k].childNodes| ensures IsChild(after[k], after[after[k].childNodes[q]], q) {
          var c := ns[k].childNodes[q];
          assert IsChild(ns[k], ns[c], q);
          assert after[c] == after[..m][c];
        }
      }
    }
  }

  /** Appending nodes with empty lists and changing no list keeps the bag and the members. */
  lemma SplitContents(mid: seq<Node>, after: seq<Node>)
    requires |mid| <= |after|
    requires forall k | 0 <= k < |mid| :: after[k].objectsList == mid[k].objectsList
    requires forall k | |mid| <= k < |after| :: after[k].objectsList == []
    ensures BagOf(after) == BagOf(mid) && MembersOf(after) == MembersOf(mid)
  {
    ListsOnly(after[..|mid|], mid);
    BagOfAppendEmpty(after[..|mid|], after[|mid|..]);
    assert after == after[..|mid|] + after[|mid|..];
    MembersOfBag(after);
    MembersOfBag(mid);
  }

  /** Appending nodes with empty lists and changing no list or depth keeps ownership. */
  lemma SplitOwned(mid: seq<Node>, after: seq<Node>)
    requires Owned(mid) && |mid| <= |after|
    requires forall k | 0 <= k < |mid| :: after[k].objectsList == mid[k].objectsList && after[k].depth == mid[k].depth
    requires forall k | |mid| <= k < |after| :: after[k].objectsList == []
    ensures Owned(after)
  {
    forall k, o | 0 <= k < |after| && o in after[k].objectsList ensures o.currentTree == Some(k) && o.depth == after[k].depth {
      assert k < |mid| && o in mid[k].objectsList;
    }
  }

  lemma GrowsTrans(a: seq<Node>, b: seq<Node>, c: seq<Node>)
    requires Grows(a, b) && Grows(b, c)
    ensures Grows(a, c)
  {
  }

  /** An insertion keeps every old node that did not split, up to appending. */
  lemma SettlesKeeps(before: seq<Node>, after: seq<Node>, obj: CollisionObject, bound: nat)
    requires |before| <= |after| && Settles(before, after, obj)
    ensures Keeps(before, after, bound)
  {
    forall k | 0 <= k < bound && k < |before| && k < |after| && after[k].childNodes == before[k].childNodes
      ensures before[k].objectsList <= after[k].objectsList
    {
      var l := before[k].objectsList;
      assert after[k].objectsList == l || after[k].objectsList == l + [obj];
      assert (l + [obj])[..|l|] == l;
    }
  }

  lemma KeepsTrans(a: seq<Node>, b: seq<Node>, c: seq<Node>, bound: nat)
    requires Grows(a, b) && Grows(b, c) && Keeps(a, b, bound) && Keeps(b, c, bound)
    ensures Keeps(a, c, bound)
  {
    forall k | 0 <= k < bound && k < |a| && k < |c| && c[k].childNodes == a[k].childNodes
      ensures a[k].objectsList <= c[k].objectsList
    {
      assert b[k].childNodes == a[k].childNodes;
      var x, y, z := a[k].objectsList, b[k].objectsList, c[k].objectsList;
      assert x <= y && y <= z;
      assert z[..|x|] == y[..|y|][..|x|];
    }
  }

  /** What a kept node held before, it still holds. */
  lemma KeepsMember(a: seq<Node>, b: seq<Node>, bound: nat, k: nat, o: CollisionObject)
    requires Keeps(a, b, bound) && k < bound && k < |a| && k < |b| && b[k].childNodes == a[k].childNodes
    requires o in a[k].objectsList
    ensures o in b[k].objectsList
  {
    var x := a[k].objectsList;
    assert b[k].objectsList[..|x|] == x;
  }

  /** The old nodes after a split of leaf n with nothing else changed: Insert's frame. */
  lemma SplitSettles(before: seq<Node>, after: seq<Node>, n: nat, obj: CollisionObject)
    requires n < |before| <= |after| && after[n].depth == before[n].depth
    requires before[n].childNodes == [] && before[n].depth < MaxDepth && |before[n].objectsList| >= MaxObjects
    requires forall k | 0 <= k < |before| && k != n :: after[k] == before[k]
    requires after[n] == before[n].(objectsList := after[n].objectsList, childNodes := after[n].childNodes)
    requires after[n].childNodes != [] && NewIndices(after[n].childNodes, |before|)
    ensures Grows(before, after) && Settles(before, after, obj)
  {
  }

  /** Appending obj to node n's list keeps ownership once obj records node n and its depth. */
  lemma OwnedAfterAppend(ns: seq<Node>, n: nat, obj: CollisionObject)
    requires Owned(ns) && n < |ns| && obj.currentTree == Some(n) && obj.depth == ns[n].depth
    ensures Owned(ns[n := ns[n].(objectsList := ns[n].objectsList + [obj])])
  {
    OwnedAfterListChange(ns, n, ns[n].objectsList + [obj]);
  }

  /** A stored object sits in the list of the node it records. */
  lemma OwnedMember(ns: seq<Node>, o: CollisionObject)
    requires Owned(ns) && o in MembersOf(ns)
    ensures o.currentTree.Some? && o.currentTree.value < |ns| && o in ns[o.currentTree.value].objectsList
  {
  }

  /**
    Refreshing child j of n (`prev` to `after`) keeps the subtrees of the
    children refreshed before it settled, and adds its own.
   */
  lemma SubtreesStaySettled(prev: seq<Node>, after: seq<Node>, n: nat, j: nat)
    requires Grows(prev, after) && StaysSettled(prev, after)
    requires n < |prev| && j < |prev[n].childNodes| && after[n].childNodes == prev[n].childNodes
    requires forall j', k | 0 <= j' < j && 0 <= k < |prev| && Descends(prev, prev[n].childNodes[j'], k) :: SettledAt(prev, k)
    requires forall k | 0 <= k < |after| && Descends(after, after[n].childNodes[j], k) :: SettledAt(after, k)
    ensures forall j', k | 0 <= j' < j + 1 && 0 <= k < |after| && Descends(after, after[n].childNodes[j'], k) :: SettledAt(after, k)
  {
    forall j', k | 0 <= j' < j + 1 && 0 <= k < |after| && Descends(after, after[n].childNodes[j'], k)
      ensures SettledAt(after, k)
    {
      if j' < j && k < |prev| {
        DescendsShrink(prev, after, prev[n].childNodes[j'], k);
        assert SettledAt(prev, k);
      }
    }
  }

  /** A settled node whose children's subtrees are settled has a settled subtree. */
  lemma SettledBelow(ns: seq<Node>, n: nat)
    requires n < |ns| && SettledAt(ns, n)
    requires forall j', k | 0 <= j' < |ns[n].childNodes| && 0 <= k < |ns| && Descends(ns, ns[n].childNodes[j'], k) :: SettledAt(ns, k)
    ensures forall k | 0 <= k < |ns| && Descends(ns, n, k) :: SettledAt(ns, k)
  {
    forall k | 0 <= k < |ns| && Descends(ns, n, k) ensures SettledAt(ns, k) {
      if k != n {
        var q :| 0 <= q < |ns[n].childNodes| && n < ns[n].childNodes[q] <= k && Descends(ns, ns[n].childNodes[q], k);
      }
    }
  }

  /** Dropping position i of a list whose positions past i all get `GetIndex` -1 leaves a list whose positions from i on all do. */
  lemma UnclassifiedTail(l: seq<CollisionObject>, i: nat, c: Vec3, sz: Vec3)
    requires i < |l| && forall j | i < j < |l| :: GetIndex(c, sz, l[j].Box()) == -1
    ensures var r := l[..i] + l[i + 1..];
      forall j | i <= j < |r| :: GetIndex(c, sz, r[j].Box()) == -1
  {
    var r := l[..i] + l[i + 1..];
    forall j | i <= j < |r| ensures GetIndex(c, sz, r[j].Box()) == -1 {
      assert r[j] == l[j + 1];
    }
  }

  /**
    The same after one step of `Refresh`'s first loop at position i: the list
    is kept, loses position i, or has it moved to the end when `GetIndex`
    gives -1 for it.
   */
  lemma UnclassifiedAfterStep(l: seq<CollisionObject>, l': seq<CollisionObject>, i: nat, c: Vec3, sz: Vec3)
    requires i < |l| && forall j | i < j < |l| :: GetIndex(c, sz, l[j].Box()) == -1
    requires (l' == l && GetIndex(c, sz, l[i].Box()) == -1) || l' == l[..i] + l[i + 1..] ||
             (GetIndex(c, sz, l[i].Box()) == -1 && l' == l[..i] + l[i + 1..] + [l[i]])
    ensures forall j | i <= j < |l'| :: GetIndex(c, sz, l'[j].Box()) == -1
  {
    if l' != l {
      UnclassifiedTail(l, i, c, sz);
    }
  }

  /** Whichever of those three the list became, every other object of it is still there. */
  lemma OthersStay(l: seq<CollisionObject>, i: nat, l': seq<CollisionObject>)
    requires i < |l|
    requires l' == l || l' == l[..i] + l[i + 1..] || l' == l[..i] + l[i + 1..] + [l[i]]
    ensures forall o | o in l && o != l[i] :: o in l'
  {
    forall o | o in l && o != l[i] ensures o in l' {
      var j :| 0 <= j < |l| && l[j] == o;
      assert o == (l[..i] + l[i + 1..])[if j < i then j else j - 1];
    }
  }

  lemma StaysSettledTrans(a: seq<Node>, b: seq<Node>, c: seq<Node>)
    requires |a| <= |b| && StaysSettled(a, b) && StaysSettled(b, c)
    ensures StaysSettled(a, c)
  {
    forall k | 0 <= k < |c| && (k < |a| ==> SettledAt(a, k)) ensures SettledAt(c, k) {
      if k < |b| {
        assert SettledAt(b, k);
      }
    }
  }

  /** Dropping an object from a list settles nothing less. */
  lemma RemoveStaysSettled(ns: seq<Node>, n: nat, i: nat)
    requires n < |ns| && i < |ns[n].objectsList|
    ensures var s := ns[n].objectsList;
      StaysSettled(ns, ns[n := ns[n].(objectsList := s[..i] + s[i + 1..])])
  {
    var s := ns[n].objectsList;
    var ns' := ns[n := ns[n].(objectsList := s[..i] + s[i + 1..])];
    forall k | 0 <= k < |ns'| && SettledAt(ns, k) ensures SettledAt(ns', k) {
      if k == n {
        assert forall o | o in s[..i] + s[i + 1..] :: o in s;
      }
    }
  }

  /** Appending an object to a list keeps the node settled when it is a leaf or `GetIndex` gives -1 for the object there. */
  lemma AppendStaysSettled(ns: seq<Node>, n: nat, obj: CollisionObject)
    requires n < |ns|
    requires ns[n].childNodes != [] ==> GetIndex(ns[n].center, ns[n].size, obj.Box()) == -1
    ensures StaysSettled(ns, ns[n := ns[n].(objectsList := ns[n].objectsList + [obj])])
  {
    var ns' := ns[n := ns[n].(objectsList := ns[n].objectsList + [obj])];
    forall k | 0 <= k < |ns'| && SettledAt(ns, k) ensures SettledAt(ns', k) {
      if k == n {
        assert forall o | o in ns[n].objectsList + [obj] :: o in ns[n].objectsList || o == obj;
      }
    }
  }

  /**
    Split of leaf n (`mid` to `split`) and the redistribution after it (to
    `after`): n ends settled, and the other old nodes and the new children
    are settled as they were.
   */
  lemma SplitStaysSettled(mid: seq<Node>, split: seq<Node>, after: seq<Node>, n: nat)
    requires n < |mid| <= |split| && mid[n].childNodes == []
    requires forall k | 0 <= k < |mid| && k != n :: split[k] == mid[k]
    requires forall k | |mid| <= k < |split| :: split[k].childNodes == []
    requires StaysSettled(split, after) && n < |after| && SettledAt(after, n)
    ensures StaysSettled(mid, after)
  {
    forall k | 0 <= k < |after| && (k < |mid| ==> SettledAt(mid, k)) ensures SettledAt(after, k) {
      if k != n && k < |split| {
        assert SettledAt(split, k);
      }
    }
  }

  /** Dropping position i of node n's list removes exactly that one object from the bag. */
  lemma BagOfRemove(ns: seq<Node>, n: nat, i: nat)
    requires n < |ns| && i < |ns[n].objectsList|
    ensures var s := ns[n].objectsList;
      BagOf(ns[n := ns[n].(objectsList := s[..i] + s[i + 1..])]) + multiset{s[i]} == BagOf(ns)
  {
    var s := ns[n].objectsList;
    var r := s[..i] + s[i + 1..];
    BagOfUpdate(ns, n, r);
    assert s == s[..i] + [s[i]] + s[i + 1..];
    var a, b, mr := BagOf(ns[n := ns[n].(objectsList := r)]), BagOf(ns), multiset(r);
    assert multiset(s) == mr + multiset{s[i]};
    assert a + multiset(s) == b + mr;
    assert (a + multiset{s[i]}) + mr == b + mr;
    Cancel(a + multiset{s[i]}, b, mr);
  }

  /** Dropping position i of node n's list leaves that object stored nowhere, and stores nothing new. */
  lemma RemovedIsGone(ns: seq<Node>, n: nat, i: nat)
    requires Owned(ns) && n < |ns| && i < |ns[n].objectsList| && NoDup(ns[n].objectsList)
    ensures var s := ns[n].objectsList;
      var ns' := ns[n := ns[n].(objectsList := s[..i] + s[i + 1..])];
      s[i] !in MembersOf(ns') && MembersOf(ns') + {s[i]} == MembersOf(ns) && Owned(ns')
  {
    var s := ns[n].objectsList;
    var co := s[i];
    var ns' := ns[n := ns[n].(objectsList := s[..i] + s[i + 1..])];
    NoDupRemove(s, i);
    forall o | o in s[..i] + s[i + 1..] ensures o.currentTree == Some(n) && o.depth == ns[n].depth {
      assert o in s;
    }
    OwnedAfterListChange(ns, n, s[..i] + s[i + 1..]);
    assert co.currentTree == Some(n);
    forall k | 0 <= k < |ns'| ensures co !in ns'[k].objectsList {
      if k != n {
        assert ns'[k] == ns[k];
      }
    }
    forall o | o in MembersOf(ns') ensures o in MembersOf(ns) {
      var k :| 0 <= k < |ns'| && o in ns'[k].objectsList;
      assert o in ns[k].objectsList;
    }
    forall o | o in MembersOf(ns) && o != co ensures o in MembersOf(ns') {
      var k :| 0 <= k < |ns| && o in ns[k].objectsList;
      if k == n {
        assert o in s[..i] + s[i + 1..] by {
          var j :| 0 <= j < |s| && s[j] == o;
          assert j != i;
          assert s[j] == (s[..i] + s[i + 1..])[if j < i then j else j - 1];
        }
      }
      assert o in ns'[k].objectsList;
    }
    assert co in ns[n].objectsList;
    assert co in MembersOf(ns);
  }

  /** Dropping position i of node n's list, as `List.Remove` does, keeps the arena a quadtree and forgets exactly that object. */
  lemma RemoveKeepsValid(ns: seq<Node>, n: nat, i: nat)
    requires Shaped(ns) && Owned(ns) && n < |ns| && i < |ns[n].objectsList|
    ensures var s := ns[n].objectsList;
      var ns' := ns[n := ns[n].(objectsList := s[..i] + s[i + 1..])];
      && RemoveFirst(s, s[i]) == s[..i] + s[i + 1..]
      && Shaped(ns') && Owned(ns')
      && s[i] !in MembersOf(ns') && MembersOf(ns') + {s[i]} == MembersOf(ns)
      && BagOf(ns') + multiset{s[i]} == BagOf(ns)
  {
    assert NodeShape(ns, n);
    var s := ns[n].objectsList;
    RemoveFirstAt(s, i);
    NoDupRemove(s, i);
    ShapedAfterListChange(ns, n, s[..i] + s[i + 1..]);
    RemovedIsGone(ns, n, i);
    BagOfRemove(ns, n, i);
  }

  /** o is stored in node n or in a node below it. */
  ghost predicate StoredBelow(ns: seq<Node>, n: nat, o: CollisionObject)
  {
    exists k | 0 <= k < |ns| :: o in ns[k].objectsList && Descends(ns, n, k)
  }

  /**
    What `Retrieve` at node n answers for the query box q: the answer of
    the one child whose quadrant strictly contains q; or, when none does,
    the answers of the children the pieces `Carve` cuts q into fall in,
    taken from the last piece to the first; followed by n's own list. Each
    child is asked about q itself, not about the piece.
   */
  ghost function Candidates(ns: seq<Node>, n: nat, q: Rect): seq<CollisionObject>
    requires Shaped(ns) && n < |ns|
    decreases |ns| - n, 1
  {
    assert NodeShape(ns, n);
    var node := ns[n];
    (if |node.childNodes| > 0 then
       var index := GetIndex(node.center, node.size, q);
       if index != -1 then Candidates(ns, node.childNodes[index], q)
       else PieceCandidates(ns, n, Carve(q, node.center.x, node.center.z), q)
     else []) + node.objectsList
  }

  /** The answers for the pieces of q at a node with children, last piece first. */
  ghost function PieceCandidates(ns: seq<Node>, n: nat, pieces: seq<Rect>, q: Rect): seq<CollisionObject>
    requires Shaped(ns) && n < |ns| && |ns[n].childNodes| == 4
    decreases |ns| - n, 0, |pieces|
  {
    assert NodeShape(ns, n);
    if pieces == [] then []
    else PieceCandidates(ns, n, pieces[1..], q) + Candidates(ns, ns[n].childNodes[GetSliceIndex(ns[n].center, pieces[0])], q)
  }

  /** Everything child q of n answers is stored below n. */
  lemma ChildAnswerBelow(ns: seq<Node>, n: nat, j: nat, q: Rect)
    requires Shaped(ns) && n < |ns| && j < |ns[n].childNodes| && ns[n].childNodes[j] < |ns|
    requires forall o | o in Candidates(ns, ns[n].childNodes[j], q) :: StoredBelow(ns, ns[n].childNodes[j], o)
    ensures forall o | o in Candidates(ns, ns[n].childNodes[j], q) :: StoredBelow(ns, n, o)
  {
    assert NodeShape(ns, n);
    forall o | o in Candidates(ns, ns[n].childNodes[j], q) ensures StoredBelow(ns, n, o) {
      var k :| 0 <= k < |ns| && o in ns[k].objectsList && Descends(ns, ns[n].childNodes[j], k);
      DescendsChild(ns, n, j, k);
    }
  }

  /** `Retrieve` only reports objects stored in the subtree it searched. */
  lemma {:induction false} CandidatesBelow(ns: seq<Node>, n: nat, q: Rect)
    requires Shaped(ns) && n < |ns|
    ensures forall o | o in Candidates(ns, n, q) :: StoredBelow(ns, n, o)
    decreases |ns| - n, 1
  {
    assert NodeShape(ns, n);
    var node := ns[n];
    var head: seq<CollisionObject> := [];
    if |node.childNodes| > 0 {
      var index := GetIndex(node.center, node.size, q);
      if index != -1 {
        CandidatesBelow(ns, node.childNodes[index], q);
        ChildAnswerBelow(ns, n, index, q);
        head := Candidates(ns, node.childNodes[index], q);
      } else {
        PieceCandidatesBelow(ns, n, Carve(q, node.center.x, node.center.z), q);
        head := PieceCandidates(ns, n, Carve(q, node.center.x, node.center.z), q);
      }
    }
    assert Candidates(ns, n, q) == head + node.objectsList;
    forall o | o in node.objectsList ensures StoredBelow(ns, n, o) {
      assert Descends(ns, n, n);
    }
  }

  lemma {:induction false} PieceCandidatesBelow(ns: seq<Node>, n: nat, pieces: seq<Rect>, q: Rect)
    requires Shaped(ns) && n < |ns| && |ns[n].childNodes| == 4
    ensures forall o | o in PieceCandidates(ns, n, pieces, q) :: StoredBelow(ns, n, o)
    decreases |ns| - n, 0, |pieces|
  {
    assert NodeShape(ns, n);
    if pieces != [] {
      PieceCandidatesBelow(ns, n, pieces[1..], q);
      var j := GetSliceIndex(ns[n].center, pieces[0]);
      CandidatesBelow(ns, ns[n].childNodes[j], q);
      ChildAnswerBelow(ns, n, j, q);
    }
  }

  /** Every candidate is a stored object. */
  lemma CandidatesStored(ns: seq<Node>, n: nat, q: Rect)
    requires Shaped(ns) && n < |ns|
    ensures forall o | o in Candidates(ns, n, q) :: o in MembersOf(ns)
  {
    CandidatesBelow(ns, n, q);
    forall o | o in Candidates(ns, n, q) ensures o in MembersOf(ns) {
      var k :| 0 <= k < |ns| && o in ns[k].objectsList && Descends(ns, n, k);
    }
  }

  /** On a leaf, `Retrieve` answers exactly the leaf's list. */
  lemma LeafCandidates(ns: seq<Node>, n: nat, q: Rect)
    requires Shaped(ns) && n < |ns| && ns[n].childNodes == []
    ensures Candidates(ns, n, q) == ns[n].objectsList
  {
  }

  /**
    A query some quadrant of n strictly contains is answered from that one
    child's subtree and n's own list, the list coming last.
   */
  lemma ClassifiedQueryOneChild(ns: seq<Node>, n: nat, q: Rect)
    requires Shaped(ns) && n < |ns| && |ns[n].childNodes| == 4
    requires GetIndex(ns[n].center, ns[n].size, q) != -1
    ensures var r := Candidates(ns, n, q);
      var c := ns[n].childNodes[GetIndex(ns[n].center, ns[n].size, q)];
      |r| >= |ns[n].objectsList| && r[|r| - |ns[n].objectsList|..] == ns[n].objectsList &&
      forall o | o in r[..|r| - |ns[n].objectsList|] :: StoredBelow(ns, c, o)
  {
    assert NodeShape(ns, n);
    var c := ns[n].childNodes[GetIndex(ns[n].center, ns[n].size, q)];
    CandidatesBelow(ns, c, q);
    var r := Candidates(ns, n, q);
    assert r == Candidates(ns, c, q) + ns[n].objectsList;
    assert r[..|r| - |ns[n].objectsList|] == Candidates(ns, c, q);
  }

  /**
    Carving a straddling wide query can send two pieces to the same child,
    which then answers twice: the 4-by-1 rectangle centered at (1, 0.25)
    at a node centered at the origin is answered by children 0, 3, 0, 3.
   */
  lemma WideQueryRepeatsChildren(ns: seq<Node>, n: nat)
    requires Shaped(ns) && n < |ns| && |ns[n].childNodes| == 4 && ns[n].center == Vec3(0.0, 0.0, 0.0)
    requires ns[n].childNodes[0] < |ns| && ns[n].childNodes[3] < |ns|
    ensures var q := Rect(Vec3(1.0, 0.0, 0.25), Vec3(4.0, 1.0, 1.0));
      var c0, c3 := Candidates(ns, ns[n].childNodes[0], q), Candidates(ns, ns[n].childNodes[3], q);
      Candidates(ns, n, q) == c0 + c3 + c0 + c3 + ns[n].objectsList
  {
    assert NodeShape(ns, n);
    var q := Rect(Vec3(1.0, 0.0, 0.25), Vec3(4.0, 1.0, 1.0));
    var c := Vec3(0.0, 0.0, 0.0);
    var halves := Carve(q, 0.0, 0.25);
    assert halves[0].center.x == 0.25 && halves[1].center.x == 0.75;
    var p := Carve(q, 0.0, 0.0);
    assert p == Carve(halves[0], 0.0, 0.0) + Carve(halves[1], 0.0, 0.0);
    assert GetSliceIndex(c, p[0]) == 3 && GetSliceIndex(c, p[1]) == 0;
    assert GetSliceIndex(c, p[2]) == 3 && GetSliceIndex(c, p[3]) == 0;
    assert GetIndex(ns[n].center, ns[n].size, q) == -1;
    var c0, c3 := Candidates(ns, ns[n].childNodes[0], q), Candidates(ns, ns[n].childNodes[3], q);
    assert PieceCandidates(ns, n, p[3..], q) == PieceCandidates(ns, n, [], q) + c0 by {
      assert p[3..][1..] == [];
    }
    assert PieceCandidates(ns, n, p[2..], q) == c0 + c3 by {
      assert p[2..][1..] == p[3..];
    }
    assert PieceCandidates(ns, n, p[1..], q) == c0 + c3 + c0 by {
      assert p[1..][1..] == p[2..];
    }
    assert PieceCandidates(ns, n, p, q) == c0 + c3 + c0 + c3;
  }

  /**
    A query that no quadrant of n strictly contains and that neither split
    line of n cuts (it crosses n's outer edge instead) is carved into no
    pieces, so no child of n is asked: the answer is n's own list.
   */
  lemma EdgeQueryAsksNoChild(ns: seq<Node>, n: nat, q: Rect)
    requires Shaped(ns) && n < |ns| && |ns[n].childNodes| == 4
    requires GetIndex(ns[n].center, ns[n].size, q) == -1 && Straddles(q, ns[n].center.x, ns[n].center.z) == 0
    ensures Candidates(ns, n, q) == ns[n].objectsList
  {
    assert Carve(q, ns[n].center.x, ns[n].center.z) == [];
  }

  /**
    The geometry of `CubeQueryMissesNeighbour`: the query cube q at
    (-0.1, 3) and the cube b at (0.3, 3), both of side 0.5, overlap; at the
    root (origin, size 20) b goes to quadrant 0 while q is cut by x = 0 into
    a piece for child 0 and then one for child 1; at the top-right child
    (center (5, 5), size 10) b goes to quadrant 2 while q is neither
    classified nor cut.
   */
  lemma MissedNeighbourGeometry()
    ensures var q := Rect(Vec3(-0.1, 0.0, 3.0), Vec3(0.5, 0.5, 0.5));
      var b := Rect(Vec3(0.3, 0.0, 3.0), Vec3(0.5, 0.5, 0.5));
      var o, root := Vec3(0.0, 0.0, 0.0), Vec3(20.0, 1.0, 20.0);
      var c, half := Vec3(5.0, 0.0, 5.0), Vec3(10.0, 1.0, 10.0);
      var p := Carve(q, 0.0, 0.0);
      && Overlap(q.center, q.size.Scale(0.5), b.center, b.size.Scale(0.5))
      && GetIndex(o, root, b) == 0 && GetIndex(c, half, b) == 2
      && GetIndex(o, root, q) == -1 && |p| == 2 && GetSliceIndex(o, p[0]) == 0 && GetSliceIndex(o, p[1]) == 1
      && GetIndex(c, half, q) == -1 && Straddles(q, c.x, c.z) == 0
  {
    var q := Rect(Vec3(-0.1, 0.0, 3.0), Vec3(0.5, 0.5, 0.5));
    assert CutsX(q, 0.0) && !CutsZ(q, 0.0);
  }

  /**
    `Retrieve` can miss an overlapping neighbour even among cubes. In a
    root of size 20 at the origin whose top-right child has split, the cube
    b of `MissedNeighbourGeometry` belongs below the top-right child, in its
    bottom-left quadrant, yet the root answers the overlapping query q with
    child 1's answer, the top-right child's own list and the root's list:
    nothing stored below the top-right child is reported.
   */
  lemma CubeQueryMissesNeighbour(ns: seq<Node>)
    requires Shaped(ns) && |ns[0].childNodes| == 4 && ns[0].childNodes[0] < |ns| && ns[0].childNodes[1] < |ns|
    requires ns[0].center == Vec3(0.0, 0.0, 0.0) && ns[0].size == Vec3(20.0, 1.0, 20.0)
    requires |ns[ns[0].childNodes[0]].childNodes| == 4
    ensures var q := Rect(Vec3(-0.1, 0.0, 3.0), Vec3(0.5, 0.5, 0.5));
      var tr := ns[0].childNodes[0];
      ns[tr].center == Vec3(5.0, 0.0, 5.0) && ns[tr].size == Vec3(10.0, 1.0, 10.0) &&
      Candidates(ns, 0, q) == Candidates(ns, ns[0].childNodes[1], q) + ns[tr].objectsList + ns[0].objectsList
  {
    assert NodeShape(ns, 0);
    var q := Rect(Vec3(-0.1, 0.0, 3.0), Vec3(0.5, 0.5, 0.5));
    var tr := ns[0].childNodes[0];
    assert IsChild(ns[0], ns[tr], 0);
    MissedNeighbourGeometry();
    EdgeQueryAsksNoChild(ns, tr, q);
    var p := Carve(q, 0.0, 0.0);
    TwoPieceCandidates(ns, 0, p, q);
    assert Candidates(ns, 0, q) == PieceCandidates(ns, 0, p, q) + ns[0].objectsList;
  }

  /** A query cut in two asks the child of the second piece, then the child of the first. */
  lemma TwoPieceCandidates(ns: seq<Node>, n: nat, p: seq<Rect>, q: Rect)
    requires Shaped(ns) && n < |ns| && |ns[n].childNodes| == 4 && |p| == 2
    ensures NodeShape(ns, n)
    ensures PieceCandidates(ns, n, p, q) ==
      Candidates(ns, ns[n].childNodes[GetSliceIndex(ns[n].center, p[1])], q) +
      Candidates(ns, ns[n].childNodes[GetSliceIndex(ns[n].center, p[0])], q)
  {
    assert NodeShape(ns, n);
    assert p[1..][1..] == [] && p[1..][0] == p[1];
    assert PieceCandidates(ns, n, p[1..], q) == Candidates(ns, ns[n].childNodes[GetSliceIndex(ns[n].center, p[1])], q);
  }

  /** The arena as a tree. */
  class QuadTree {
    var nodes: seq<Node>

    ghost function Members(): set<CollisionObject>
      reads this
    {
      MembersOf(nodes)
    }

    ghost function Bag(): multiset<CollisionObject>
      reads this
    {
      BagOf(nodes)
    }

    ghost predicate Valid()
      reads this, Members()`currentTree, Members()`depth
    {
      Shaped(nodes) && Owned(nodes)
    }

    /** The root node of the source's driver: depth -1, its own root, no objects. */
    constructor (center: Vec3, size: Vec3)
      ensures Valid() && Bag() == multiset{} && |nodes| == 1
      ensures nodes[0] == MakeNode(center, size, -1, 0)
    {
      nodes := [MakeNode(center, size, -1, 0)];
      new;
      assert BagOf(nodes) == BagOf(nodes[..0]) + multiset(nodes[0].objectsList);
    }

    /**
      `Split`: give the leaf n four children, one per quadrant, appended to
      the arena in the order top-right, top-left, bottom-left, bottom-right,
      each sharing n's root.
     */
    method Split(n: nat)
      requires n < |nodes| && nodes[n].childNodes == []
      modifies this
      ensures |nodes| == old(|nodes|) + 4
      ensures nodes[..old(|nodes|)] == old(nodes[n := nodes[n].(childNodes := [|nodes|, |nodes| + 1, |nodes| + 2, |nodes| + 3])])
      ensures forall q | 0 <= q < 4 ::
        var b := ChildBox(old(nodes[n].center), old(nodes[n].size), q);
        nodes[old(|nodes|) + q] == Node(b.center, b.size, old(nodes[n].depth) + 1, [], [], old(nodes[n].rootTree))
      ensures forall k | old(|nodes|) <= k < |nodes| :: nodes[k].objectsList == [] && nodes[k].childNodes == []
      ensures Grows(old(nodes), nodes)
    {
      var node := nodes[n];
      var halfLength := node.size.x * 0.5;
      var halfWidth := node.size.z * 0.5;
      var x := node.center.x;
      var y := node.center.z;
      var currentDepth := node.depth + 1;
      var m := |nodes|;
      var childSize := Vec3(halfLength, node.size.y, halfWidth);
      var tr := MakeNode(Vec3(x + halfLength * 0.5, node.center.y, y + halfWidth * 0.5), childSize, currentDepth, m);
      var tl := MakeNode(Vec3(x - halfLength * 0.5, node.center.y, y + halfWidth * 0.5), childSize, currentDepth, m + 1);
      var bl := MakeNode(Vec3(x - halfLength * 0.5, node.center.y, y - halfWidth * 0.5), childSize, currentDepth, m + 2);
      var br := MakeNode(Vec3(x + halfLength * 0.5, node.center.y, y - halfWidth * 0.5), childSize, currentDepth, m + 3);
      nodes := nodes[n := node.(childNodes := [m, m + 1, m + 2, m + 3])] + [tr, tl, bl, br];
      var j := 0;
      while j < |nodes[n].childNodes|
        invariant 0 <= j <= 4 && |nodes| == m + 4
        invariant forall k | m <= k < |nodes| :: nodes[k].objectsList == [] && nodes[k].childNodes == []
        invariant nodes[..m] == old(nodes[n := nodes[n].(childNodes := [m, m + 1, m + 2, m + 3])])
        invariant forall q | 0 <= q < 4 ::
          var b := ChildBox(node.center, node.size, q);
          nodes[m + q] == Node(b.center, b.size, currentDepth, [], [],
                               if q < j then node.rootTree else MakeNode(b.center, b.size, currentDepth, m + q).rootTree)
      {
        var c := nodes[n].childNodes[j];
        nodes := nodes[c := nodes[c].(rootTree := node.rootTree)];
        j := j + 1;
      }
    }

    /**
      `Insert` into the subtree of node n. The object goes down into the
      child whose quadrant strictly contains it; otherwise it joins n's
      list, and a leaf pushed past `MaxObjects` above `MaxDepth` splits and
      re-inserts into the new children every object of its list that a
      child strictly contains.
     */
    method Insert(n: nat, obj: CollisionObject)
      requires Valid() && n < |nodes| && obj !in Members()
      modifies this, Members()`currentTree, Members()`depth, obj`currentTree, obj`depth
      ensures Valid()
      ensures Bag() == old(Bag()) + multiset{obj} && Members() == old(Members()) + {obj}
      ensures Grows(old(nodes), nodes) && Settles(old(nodes), nodes, obj)
      ensures forall k | 0 <= k < n :: nodes[k] == old(nodes[k])
      ensures forall k | 0 <= k < old(|nodes|) && nodes[k].childNodes != old(nodes[k].childNodes) ::
        forall o | o in nodes[k].objectsList :: GetIndex(nodes[k].center, nodes[k].size, o.Box()) == -1
      ensures Sinks(old(nodes), nodes)
      ensures forall k | 0 <= k < |nodes| && obj in nodes[k].objectsList :: Descends(nodes, n, k)
      ensures StaysSettled(old(nodes), nodes)
      decreases MaxDepth - nodes[n].depth, 5
    {
      assert NodeShape(nodes, n);
      if |nodes[n].childNodes| > 0 {
        var index := GetIndex(nodes[n].center, nodes[n].size, obj.Box());
        if index != -1 {
          Insert(nodes[n].childNodes[index], obj);
          forall k | 0 <= k < |nodes| && obj in nodes[k].objectsList ensures Descends(nodes, n, k) {
            DescendsChild(nodes, n, index, k);
          }
          return;
        }
      }
      AddHere(n, obj);
    }

    /**
      The rest of `Insert` once no child of n takes the object: append it to
      n's list, and split a leaf above the deepest level that now holds more
      than `MaxObjects`.
     */
    method AddHere(n: nat, obj: CollisionObject)
      requires Valid() && n < |nodes| && obj !in Members()
      requires nodes[n].childNodes != [] ==> GetIndex(nodes[n].center, nodes[n].size, obj.Box()) == -1
      modifies this, Members()`currentTree, Members()`depth, obj`currentTree, obj`depth
      ensures Valid()
      ensures Bag() == old(Bag()) + multiset{obj} && Members() == old(Members()) + {obj}
      ensures Grows(old(nodes), nodes) && Settles(old(nodes), nodes, obj)
      ensures forall k | 0 <= k < n :: nodes[k] == old(nodes[k])
      ensures forall k | 0 <= k < old(|nodes|) && nodes[k].childNodes != old(nodes[k].childNodes) ::
        forall o | o in nodes[k].objectsList :: GetIndex(nodes[k].center, nodes[k].size, o.Box()) == -1
      ensures Sinks(old(nodes), nodes)
      ensures forall k | 0 <= k < |nodes| && obj in nodes[k].objectsList :: Descends(nodes, n, k)
      ensures StaysSettled(old(nodes), nodes)
      decreases MaxDepth - nodes[n].depth, 4
    {
      assert NodeShape(nodes, n);
      ghost var before := nodes;
      Append(n, obj);
      if |nodes[n].objectsList| > MaxObjects && nodes[n].depth < MaxDepth {
        if |nodes[n].childNodes| == 0 {
          ShapedAfterListChange(before, n, []);
          assert nodes[n := nodes[n].(objectsList := [])] == before[n := before[n].(objectsList := [])];
          ghost var mid := nodes;
          assert obj in mid[n].objectsList;
          SplitAndPushDown(n);
          AppendStaysSettled(before, n, obj);
          StaysSettledTrans(before, mid, nodes);
          SplitSettles(before, nodes, n, obj);
          SinksTrans(before, mid, nodes);
          return;
        }
      }
      AppendStaysSettled(before, n, obj);
      ShapedAfterListChange(before, n, nodes[n].objectsList);
    }

    /** `objectsList.Add(obj)` at node n, then the object records node n and its depth. */
    method Append(n: nat, obj: CollisionObject)
      requires n < |nodes| && Owned(nodes) && NoDup(nodes[n].objectsList) && obj !in Members()
      modifies this, obj`currentTree, obj`depth
      ensures nodes == old(nodes[n := nodes[n].(objectsList := nodes[n].objectsList + [obj])])
      ensures Owned(nodes) && NoDup(nodes[n].objectsList)
      ensures Bag() == old(Bag()) + multiset{obj} && Members() == old(Members()) + {obj}
      ensures obj.currentTree == Some(n) && obj.depth == nodes[n].depth
      ensures Sinks(old(nodes), nodes)
      ensures forall k | 0 <= k < |nodes| && obj in nodes[k].objectsList :: k == n
    {
      OwnedUnique(nodes);
      var node := nodes[n];
      assert obj !in node.objectsList;
      NoDupAppend(node.objectsList, obj);
      BagOfAppend(nodes, n, obj);
      MembersAppend(nodes, n, obj);
      AppendSinks(nodes, n, obj);
      obj.SetCurrentTree(n);
      obj.SetDepth(node.depth);
      OwnedAfterAppend(nodes, n, obj);
      nodes := nodes[n := node.(objectsList := node.objectsList + [obj])];
    }

    /**
      The branch of `Insert` taken by a leaf above the deepest level whose
      list has just grown past `MaxObjects`: `Split`, then move down every
      object of the list that a new child strictly contains.
     */
    method SplitAndPushDown(n: nat)
      requires n < |nodes| && nodes[n].childNodes == [] && nodes[n].depth < MaxDepth
      requires Shaped(nodes[n := nodes[n].(objectsList := [])]) && NoDup(nodes[n].objectsList) && Owned(nodes)
      modifies this, Members()`currentTree, Members()`depth
      ensures Valid() && Bag() == old(Bag()) && Members() == old(Members())
      ensures Grows(old(nodes), nodes)
      ensures forall k | 0 <= k < old(|nodes|) && k != n :: nodes[k] == old(nodes[k])
      ensures nodes[n] == old(nodes[n]).(objectsList := nodes[n].objectsList, childNodes := nodes[n].childNodes)
      ensures nodes[n].childNodes != [] && NewIndices(nodes[n].childNodes, old(|nodes|))
      ensures forall o | o in nodes[n].objectsList :: GetIndex(nodes[n].center, nodes[n].size, o.Box()) == -1
      ensures Sinks(old(nodes), nodes) && StaysSettled(old(nodes), nodes)
      decreases MaxDepth - nodes[n].depth, 3
    {
      ghost var base := nodes[n := nodes[n].(objectsList := [])];
      ghost var mid := nodes;
      OwnedUnique(mid);
      Split(n);
      ghost var split := nodes;
      assert base[n].(objectsList := mid[n].objectsList) == mid[n];
      assert split[..|mid|] == base[n := base[n].(objectsList := mid[n].objectsList, childNodes := split[n].childNodes)];
      SplitShaped(base, n, mid[n].objectsList, nodes);
      SplitContents(mid, nodes);
      SplitOwned(mid, nodes);
      SinksInPlace(mid, split, n);
      assert forall k | 0 <= k < |mid| && k != n :: split[k] == split[..|mid|][k] == mid[k];
      assert forall k | |mid| <= k < |split| :: split[k].childNodes == [];
      Redistribute(n);
      assert SettledAt(nodes, n);
      SplitStaysSettled(mid, split, nodes, n);
      GrowsTrans(mid, split, nodes);
      SinksTrans(mid, split, nodes);
    }

    /**
      The loop `Insert` runs right after `Split(n)`: from the end of n's list
      to the start, each object some child strictly contains is removed from
      the list and inserted into that child.
     */
    method Redistribute(n: nat)
      requires Valid() && n < |nodes| && 4 <= |nodes|
      requires nodes[n].childNodes == [|nodes| - 4, |nodes| - 3, |nodes| - 2, |nodes| - 1]
      modifies this, Members()`currentTree, Members()`depth
      ensures Valid() && Bag() == old(Bag()) && Members() == old(Members())
      ensures Grows(old(nodes), nodes)
      ensures forall k | 0 <= k < old(|nodes|) - 4 && k != n :: nodes[k] == old(nodes[k])
      ensures nodes[n] == old(nodes[n]).(objectsList := nodes[n].objectsList)
      ensures forall o | o in nodes[n].objectsList :: GetIndex(nodes[n].center, nodes[n].size, o.Box()) == -1
      ensures Sinks(old(nodes), nodes) && StaysSettled(old(nodes), nodes)
      decreases MaxDepth - nodes[n].depth, 2
    {
      assert NodeShape(nodes, n);
      ghost var m := |nodes| - 4;
      ghost var node := nodes[n];
      OwnedUnique(nodes);
      SinksInPlace(nodes, nodes, n);
      assert n < node.childNodes[0] == m;
      assert Grows(nodes, nodes) && StaysSettled(nodes, nodes);
      var i := |nodes[n].objectsList| - 1;
      while i >= 0
        invariant n < m <= |nodes| && nodes[n].childNodes == node.childNodes && -1 <= i < |nodes[n].objectsList|
        invariant Valid() && Bag() == old(Bag()) && Members() == old(Members())
        invariant Grows(old(nodes), nodes)
        invariant forall k | 0 <= k < m && k != n :: nodes[k] == old(nodes[k])
        invariant nodes[n] == node.(objectsList := nodes[n].objectsList)
        invariant forall j | i < j < |nodes[n].objectsList| ::
          GetIndex(nodes[n].center, nodes[n].size, nodes[n].objectsList[j].Box()) == -1
        invariant Sinks(old(nodes), nodes) && StaysSettled(old(nodes), nodes)
      {
        RedistributeStep(n, i, m, node, old(nodes));
        i := i - 1;
      }
    }

    /** One pass of `Redistribute`'s loop at position i, with the loop's invariant before and after. */
    method RedistributeStep(n: nat, i: nat, ghost m: nat, ghost node: Node, ghost start: seq<Node>)
      requires Valid() && n < m <= |nodes| && i < |nodes[n].objectsList|
      requires nodes[n].childNodes == node.childNodes == [m, m + 1, m + 2, m + 3]
      requires m <= |start| && Grows(start, nodes) && Sinks(start, nodes) && MembersOf(start) <= Members()
      requires StaysSettled(start, nodes)
      requires forall k | 0 <= k < m && k != n :: nodes[k] == start[k]
      requires nodes[n] == node.(objectsList := nodes[n].objectsList)
      requires forall j | i < j < |nodes[n].objectsList| ::
        GetIndex(nodes[n].center, nodes[n].size, nodes[n].objectsList[j].Box()) == -1
      modifies this, Members()`currentTree, Members()`depth
      ensures Valid() && Bag() == old(Bag()) && Members() == old(Members())
      ensures m <= |nodes| && nodes[n].childNodes == node.childNodes && i <= |nodes[n].objectsList|
      ensures Grows(start, nodes) && Sinks(start, nodes) && StaysSettled(start, nodes)
      ensures forall k | 0 <= k < m && k != n :: nodes[k] == start[k]
      ensures nodes[n] == node.(objectsList := nodes[n].objectsList)
      ensures forall j | i <= j < |nodes[n].objectsList| ::
        GetIndex(nodes[n].center, nodes[n].size, nodes[n].objectsList[j].Box()) == -1
      decreases MaxDepth - nodes[n].depth, 1
    {
      ghost var prev := nodes;
      ghost var l := nodes[n].objectsList;
      MoveDown(n, i, m);
      if GetIndex(nodes[n].center, nodes[n].size, l[i].Box()) != -1 {
        UnclassifiedTail(l, i, nodes[n].center, nodes[n].size);
      }
      SinksTrans(start, prev, nodes);
      StaysSettledTrans(start, prev, nodes);
    }

    /**
      One step of that loop at position i: if a child strictly contains the
      object, remove it from n's list and insert it into that child.
     */
    method MoveDown(n: nat, i: nat, ghost lo: nat)
      requires Valid() && n < |nodes| && i < |nodes[n].objectsList| && |nodes[n].childNodes| == 4
      requires n < lo <= |nodes| && forall q | 0 <= q < 4 :: lo <= nodes[n].childNodes[q]
      modifies this, Members()`currentTree, Members()`depth
      ensures old(|nodes|) <= |nodes|
      ensures Valid() && Bag() == old(Bag()) && Members() == old(Members())
      ensures Grows(old(nodes), nodes)
      ensures forall k | 0 <= k < lo && k != n :: nodes[k] == old(nodes[k])
      ensures n < |nodes| && nodes[n].center == old(nodes[n].center) && nodes[n].size == old(nodes[n].size)
      ensures GetIndex(nodes[n].center, nodes[n].size, old(nodes[n].objectsList[i]).Box()) == -1 ==> nodes[n] == old(nodes[n])
      ensures GetIndex(nodes[n].center, nodes[n].size, old(nodes[n].objectsList[i]).Box()) != -1 ==>
        nodes[n] == old(nodes[n]).(objectsList := old(nodes[n].objectsList[..i] + nodes[n].objectsList[i + 1..]))
      ensures Sinks(old(nodes), nodes) && StaysSettled(old(nodes), nodes)
      decreases MaxDepth - nodes[n].depth, 0
    {
      assert NodeShape(nodes, n);
      OwnedUnique(nodes);
      var index := GetIndex(nodes[n].center, nodes[n].size, nodes[n].objectsList[i].Box());
      if index != -1 {
        var co := nodes[n].objectsList[i];
        RemoveAt(n, i);
        ghost var mid := nodes;
        assert Grows(old(nodes), mid);
        Insert(nodes[n].childNodes[index], co);
        GrowsTrans(old(nodes), mid, nodes);
        RemoveStaysSettled(old(nodes), n, i);
        StaysSettledTrans(old(nodes), mid, nodes);
        forall k | 0 <= k < |nodes| && co in nodes[k].objectsList ensures Descends(nodes, n, k) {
          DescendsChild(nodes, n, index, k);
        }
        SinksAfterMove(old(nodes), mid, nodes, n, i);
      } else {
        SinksInPlace(nodes, nodes, n);
      }
    }

    /** Drop position i of node n's list, as `List.Remove` of that element does in a duplicate-free list. */
    method RemoveAt(n: nat, i: nat)
      requires Valid() && n < |nodes| && i < |nodes[n].objectsList|
      modifies this
      ensures nodes == old(nodes[n := nodes[n].(objectsList := nodes[n].objectsList[..i] + nodes[n].objectsList[i + 1..])])
      ensures Valid() && old(nodes[n].objectsList[i]) !in Members()
      ensures Bag() + multiset{old(nodes[n].objectsList[i])} == old(Bag())
      ensures Members() + {old(nodes[n].objectsList[i])} == old(Members())
      ensures StaysSettled(old(nodes), nodes)
    {
      var s := nodes[n].objectsList;
      RemoveKeepsValid(nodes, n, i);
      RemoveStaysSettled(nodes, n, i);
      var r := RemoveFirst(s, s[i]);
      nodes := nodes[n := nodes[n].(objectsList := r)];
    }

    /**
      Remove position i of node n's list and `Insert` that object into the
      subtree of node t. Node n cannot split on the way: its list is one
      short of what it held, and a leaf above the deepest level held at most
      `MaxObjects`.
     */
    method ReinsertAt(n: nat, i: nat, t: nat)
      requires Valid() && n < |nodes| && i < |nodes[n].objectsList| && t < |nodes|
      modifies this, Members()`currentTree, Members()`depth
      ensures Valid() && Bag() == old(Bag()) && Members() == old(Members())
      ensures Grows(old(nodes), nodes) && Keeps(old(nodes), nodes, n)
      ensures n < |nodes| && nodes[n].childNodes == old(nodes[n].childNodes)
      ensures var l := old(nodes[n].objectsList);
        nodes[n].objectsList == l[..i] + l[i + 1..] || nodes[n].objectsList == l[..i] + l[i + 1..] + [l[i]]
      ensures n < t ==> nodes[n].objectsList == old(nodes[n].objectsList[..i] + nodes[n].objectsList[i + 1..])
      ensures forall k | 0 <= k < |nodes| && old(nodes[n].objectsList[i]) in nodes[k].objectsList :: Descends(nodes, t, k)
      ensures StaysSettled(old(nodes), nodes)
    {
      assert NodeShape(nodes, n);
      var co := nodes[n].objectsList[i];
      RemoveAt(n, i);
      ghost var mid := nodes;
      Insert(t, co);
      RemoveStaysSettled(old(nodes), n, i);
      StaysSettledTrans(old(nodes), mid, nodes);
      assert Settles(mid, nodes, co);
      SettlesKeeps(mid, nodes, co, n);
    }

    /**
      One step of the first loop of `Refresh` at position i of node n's
      list: an object no quadrant of n strictly contains is re-inserted from
      the root, unless n is the root; one that a quadrant contains goes down
      into that child when n has children, and is re-inserted into n when
      n is a leaf.
     */
    method RefreshStep(n: nat, i: nat)
      requires Valid() && n < |nodes| && i < |nodes[n].objectsList|
      modifies this, Members()`currentTree, Members()`depth
      ensures Valid() && Bag() == old(Bag()) && Members() == old(Members())
      ensures Grows(old(nodes), nodes) && Keeps(old(nodes), nodes, n)
      ensures n < |nodes| && nodes[n].childNodes == old(nodes[n].childNodes)
      ensures var l := old(nodes[n].objectsList);
        var q := GetIndex(nodes[n].center, nodes[n].size, l[i].Box());
        if n == 0 && q == -1 then nodes == old(nodes)
        else (nodes[n].objectsList == l[..i] + l[i + 1..] ||
              ((q == -1 || nodes[n].childNodes == []) && nodes[n].objectsList == l[..i] + l[i + 1..] + [l[i]]))
      ensures forall o | o in old(nodes[n].objectsList) && o != old(nodes[n].objectsList[i]) :: o in nodes[n].objectsList
      ensures i <= |nodes[n].objectsList|
      ensures var q := GetIndex(nodes[n].center, nodes[n].size, old(nodes[n].objectsList[i]).Box());
        0 <= q < |nodes[n].childNodes| ==>
        forall k | 0 <= k < |nodes| && old(nodes[n].objectsList[i]) in nodes[k].objectsList :: Descends(nodes, nodes[n].childNodes[q], k)
      ensures StaysSettled(old(nodes), nodes)
    {
      assert NodeShape(nodes, n);
      var index := GetIndex(nodes[n].center, nodes[n].size, nodes[n].objectsList[i].Box());
      ghost var l := nodes[n].objectsList;
      if index == -1 {
        if nodes[n].rootTree != Some(n) {
          ReinsertAt(n, i, nodes[n].rootTree.value);
        }
      } else if |nodes[n].childNodes| > 0 {
        ReinsertAt(n, i, nodes[n].childNodes[index]);
      } else {
        ReinsertAt(n, i, n);
      }
      OthersStay(l, i, nodes[n].objectsList);
    }

    /**
      `Refresh` of node n: walk n's list from the end, re-homing every
      object as `RefreshStep` does, then refresh each child in order.
      Every object stays stored exactly once, an object the root's
      quadrants do not strictly contain stays in the root's list, and
      afterwards every node of n's subtree that has children holds only
      objects that fit none of its quadrants.
     */
    method Refresh(n: nat)
      requires Valid() && n < |nodes|
      modifies this, Members()`currentTree, Members()`depth
      ensures Valid() && Bag() == old(Bag()) && Members() == old(Members())
      ensures Grows(old(nodes), nodes) && Keeps(old(nodes), nodes, n)
      ensures n == 0 ==> forall o | o in old(nodes[0].objectsList) && GetIndex(nodes[0].center, nodes[0].size, o.Box()) == -1 ::
        o in nodes[0].objectsList
      ensures StaysSettled(old(nodes), nodes)
      ensures forall k | 0 <= k < |nodes| && Descends(nodes, n, k) :: SettledAt(nodes, k)
      decreases MaxDepth - nodes[n].depth, 1
    {
      RefreshList(n);
      var j := 0;
      while j < |nodes[n].childNodes|
        invariant n < |nodes| && 0 <= j <= |nodes[n].childNodes| && nodes[n].childNodes == old(nodes[n].childNodes)
        invariant nodes[n].depth == old(nodes[n].depth)
        invariant Valid() && Bag() == old(Bag()) && Members() == old(Members())
        invariant Grows(old(nodes), nodes) && Keeps(old(nodes), nodes, n)
        invariant n == 0 ==> forall o | o in old(nodes[0].objectsList) && GetIndex(nodes[0].center, nodes[0].size, o.Box()) == -1 ::
          o in nodes[0].objectsList
        invariant StaysSettled(old(nodes), nodes) && SettledAt(nodes, n)
        invariant forall j', k | 0 <= j' < j && 0 <= k < |nodes| && Descends(nodes, nodes[n].childNodes[j'], k) :: SettledAt(nodes, k)
      {
        RefreshChild(n, j, old(nodes));
        j := j + 1;
      }
      SettledBelow(nodes, n);
    }

    /**
      The first half of `Refresh`: re-home every object of n's list, from
      the end, leaving n itself settled.
     */
    method RefreshList(n: nat)
      requires Valid() && n < |nodes|
      modifies this, Members()`currentTree, Members()`depth
      ensures Valid() && Bag() == old(Bag()) && Members() == old(Members())
      ensures n < |nodes| && nodes[n].childNodes == old(nodes[n].childNodes) && nodes[n].depth == old(nodes[n].depth)
      ensures Grows(old(nodes), nodes) && Keeps(old(nodes), nodes, n)
      ensures n == 0 ==> forall o | o in old(nodes[0].objectsList) && GetIndex(nodes[0].center, nodes[0].size, o.Box()) == -1 ::
        o in nodes[0].objectsList
      ensures StaysSettled(old(nodes), nodes) && SettledAt(nodes, n)
    {
      var i := |nodes[n].objectsList| - 1;
      while i >= 0
        invariant n < |nodes| && -1 <= i < |nodes[n].objectsList| && nodes[n].childNodes == old(nodes[n].childNodes)
        invariant Valid() && Bag() == old(Bag()) && Members() == old(Members())
        invariant Grows(old(nodes), nodes) && Keeps(old(nodes), nodes, n)
        invariant n == 0 ==> forall o | o in old(nodes[0].objectsList) && GetIndex(nodes[0].center, nodes[0].size, o.Box()) == -1 ::
          o in nodes[0].objectsList
        invariant StaysSettled(old(nodes), nodes)
        invariant nodes[n].childNodes != [] ==>
          forall j | i < j < |nodes[n].objectsList| :: GetIndex(nodes[n].center, nodes[n].size, nodes[n].objectsList[j].Box()) == -1
      {
        ghost var prev := nodes;
        ghost var l := nodes[n].objectsList;
        RefreshStep(n, i);
        GrowsTrans(old(nodes), prev, nodes);
        KeepsTrans(old(nodes), prev, nodes, n);
        StaysSettledTrans(old(nodes), prev, nodes);
        if nodes[n].childNodes != [] {
          UnclassifiedAfterStep(l, nodes[n].objectsList, i, nodes[n].center, nodes[n].size);
        }
        i := i - 1;
      }
    }

    /**
      One round of `Refresh`'s second loop: refresh child j of n, keeping
      what the loop has established since `start`.
     */
    method RefreshChild(n: nat, j: nat, ghost start: seq<Node>)
      requires Valid() && n < |nodes| && n < |start| && j < |nodes[n].childNodes|
      requires Grows(start, nodes) && Keeps(start, nodes, n)
      requires n == 0 ==> forall o | o in start[0].objectsList && GetIndex(nodes[0].center, nodes[0].size, o.Box()) == -1 ::
        o in nodes[0].objectsList
      requires StaysSettled(start, nodes) && SettledAt(nodes, n)
      requires forall j', k | 0 <= j' < j && 0 <= k < |nodes| && Descends(nodes, nodes[n].childNodes[j'], k) :: SettledAt(nodes, k)
      modifies this, Members()`currentTree, Members()`depth
      ensures Valid() && Bag() == old(Bag()) && Members() == old(Members())
      ensures n < |nodes| && nodes[n].childNodes == old(nodes[n].childNodes) && nodes[n].depth == old(nodes[n].depth)
      ensures Grows(start, nodes) && Keeps(start, nodes, n)
      ensures n == 0 ==> forall o | o in start[0].objectsList && GetIndex(nodes[0].center, nodes[0].size, o.Box()) == -1 ::
        o in nodes[0].objectsList
      ensures StaysSettled(start, nodes) && SettledAt(nodes, n)
      ensures forall j', k | 0 <= j' < j + 1 && 0 <= k < |nodes| && Descends(nodes, nodes[n].childNodes[j'], k) :: SettledAt(nodes, k)
      decreases MaxDepth - nodes[n].depth, 0
    {
      assert NodeShape(nodes, n);
      ghost var prev := nodes;
      var c := nodes[n].childNodes[j];
      Refresh(c);
      GrowsTrans(start, prev, nodes);
      KeepsTrans(start, prev, nodes, n);
      StaysSettledTrans(start, prev, nodes);
      assert SettledAt(nodes, n);
      SubtreesStaySettled(prev, nodes, n, j);
      if n == 0 {
        forall o | o in start[0].objectsList && GetIndex(nodes[0].center, nodes[0].size, o.Box()) == -1
          ensures o in nodes[0].objectsList
        {
          KeepsMember(prev, nodes, c, 0, o);
        }
      }
    }

    /** `Clear`: empty node n's list. The removed objects keep their stale node and depth. */
    method Clear(n: nat)
      requires n < |nodes|
      modifies this
      ensures nodes == old(nodes[n := nodes[n].(objectsList := [])])
      ensures Bag() + multiset(old(nodes[n].objectsList)) == old(Bag())
      ensures old(Valid()) ==> Valid()
    {
      if Valid() {
        ShapedAfterListChange(nodes, n, []);
        OwnedAfterListChange(nodes, n, []);
      }
      BagOfUpdate(nodes, n, []);
      nodes := nodes[n := nodes[n].(objectsList := [])];
    }

    /**
      `Retrieve` of the query object pBounds at node n: the candidates for
      collision with it, as `Candidates` defines them.
     */
    method Retrieve(n: nat, pBounds: CollisionObject) returns (resultList: seq<CollisionObject>)
      requires Valid() && n < |nodes|
      ensures resultList == Candidates(nodes, n, pBounds.Box())
      decreases |nodes| - n
    {
      assert NodeShape(nodes, n);
      resultList := [];
      if |nodes[n].childNodes| > 0 {
        var index := GetIndex(nodes[n].center, nodes[n].size, pBounds.Box());
        if index != -1 {
          var found := Retrieve(nodes[n].childNodes[index], pBounds);
          resultList := resultList + found;
        } else {
          var sliceArr := Carve(pBounds.Box(), nodes[n].center.x, nodes[n].center.z);
          var i := |sliceArr| - 1;
          while i >= 0
            invariant -1 <= i < |sliceArr|
            invariant resultList == PieceCandidates(nodes, n, sliceArr[i + 1..], pBounds.Box())
          {
            index := GetSliceIndex(nodes[n].center, sliceArr[i]);
            var found := Retrieve(nodes[n].childNodes[index], pBounds);
            assert sliceArr[i..][1..] == sliceArr[i + 1..];
            resultList := resultList + found;
            i := i - 1;
          }
        }
      }
      resultList := resultList + nodes[n].objectsList;
    }
  }
}
