# DeliveryBoy quadtree, collision objects and timers in Dafny

This project models three scripts of the DeliveryBoy Unity game.

- **QuadTree.cs.** The class `QuadTree` is a region quadtree over the x/z plane. `Split` gives a node four children. `GetIndex` and `GetSliceIndex` classify a box into a quadrant. `Insert` splits a node on overflow and pushes its objects down. `Retrieve` answers a neighbour query and carves a query that straddles the split lines. `Refresh` re-homes every object once per frame. The class `CollisionObject` is a moving box. Its `Update` moves it, collides it with each neighbour through `IsCollide` and `Collide(CollisionObject)`, and bounces it off the arena walls with `Collide(Bounds)`.
- **TimerManager.cs.** The class `Timer` is a pause/resume/stop countdown. A static list `MyTimers` holds the registered timers and is driven once per frame by `UpdateAllTimer`.
- **CreateQuadTreeWithBounds.cs.** This scene driver builds the root, spawns cubes with clamp limits, and inserts them in `Start`. Each frame, `Update` refreshes the tree and then moves every object in array order.

Coordinates are exact reals. The tree is one `QuadTree` object holding an arena `nodes` of node records. Node 0 is the root, at depth -1. A node's children are arena indices that are larger than its own. "Node k's list" is the source's `objectsList` of the `QuadTree` instance k. Collision objects are distinct references. The tree writes only their `currentTree` and `depth` fields. The tree's invariant `Valid` says several things:
- every node has 0 or 4 children;
- no node with children is at `MAX_Depth` (5);
- a leaf above `MAX_Depth` holds at most `MAX_Objects` (10) objects;
- children have the geometry `Split` gives them;
- every stored object sits in exactly one list, and records that node and its depth.

Each collision rule is first stated on plain values: the overlap test, `CollideVelocity`, `Bounce` and `WallResponse`. The class methods are then proved to apply those rules.

The modules are: `Geometry` (vectors and boxes), `Quadrants` (`Split` geometry and the two classifiers), `Carving` (`Carve`), `Response` (collision arithmetic), `Lists` (`List.Remove` and duplicate-freedom), `Wrappers` (the shared `Option` type), `QuadTreeCore` (the two classes), `Timers` and `Driver`.

### Behaviours reproduced as written

- **`Retrieve` queries children with the whole box.** It uses each carved piece only to choose a child, then asks that child about the whole query box (QuadTree.cs:268, 270). `WideQueryRepeatsChildren` exhibits a query whose answer repeats two children's answers twice each.
- **`GetIndex` uses `>=` margins.** An object touching a split line with zero margin is still classified (`EdgeOnSplitLineIsClassified`). An object whose center lies on a line never is (`OnSplitLineIsUnclassified`).
- **`Carve`'s x-only branch sizes its pieces from `halfWidth`, the z half-size** (QuadTree.cs:459-460). Its two pieces tile the rectangle exactly when the rectangle is square (`CarveAlongXTilesIffSquare`). On a non-square query the pieces can miss whole quadrants (`WideRectangleMissesLeftQuadrants`). Every object the driver spawns is a cube, so this sizing error itself never shows in the scene. The model keeps the code as written.
- **`Retrieve` can miss an overlapping object, even among cubes.** At a node with children, a query that crosses the node's outer edge but neither of its split lines gets `GetIndex` -1 and no carved pieces. That node then asks none of its children, and answers only its own list (`EdgeQueryAsksNoChild`). Take a root of size 20 at the origin whose top-right child has split. A cube at (0.3, 3) is stored below the top-right child. An overlapping query cube at (-0.1, 3) reaches the top-right child, but never that child's subtree (`MissedNeighbourGeometry`, `CubeQueryMissesNeighbour`). So the collision pass can overlook a pair of touching cubes.
- **`IsCollide` updates `object1` first.** `object2` then reads `object1`'s new velocity (`Bounce`, `PairResponse`).
- **`UpdateAllTimer` skips the timer after a stopping one.** It walks forward by index over a list from which a stopping timer removes itself. The timer after it slides into the visited slot and is not updated that frame (`Schedule`, `ScheduleSkips`).

## Model

| member | source | states |
|---|---|---|
| Quadrants.ChildBoxIsQuadrant | Assets/m_Folder/m_Scripts/QuadTree/QuadTree.cs:71-93 | The box of child q (q = 0 top-right, 1 top-left, 2 bottom-left, 3 bottom-right) spans exactly the half of the parent between the split line and the parent's edge on q's side, on both x and z. It keeps the parent's y center and y size. |
| QuadTreeCore.QuadTree.Split | Assets/m_Folder/m_Scripts/QuadTree/QuadTree.cs:71-93 | Exactly four children are appended, in the order TR, TL, BL, BR. Each has the `ChildBox` geometry, the parent's depth + 1 and the parent's root. They start with empty lists and no children, and the parent links them. Only the split leaf changes its children (`Grows`). |
| Quadrants.GetIndex | Assets/m_Folder/m_Scripts/QuadTree/QuadTree.cs:100-136 | The result is -1 or a quadrant. A quadrant q is returned only when the box lies inside child q's box with its center strictly on q's side of both split lines. -1 is returned only when no quadrant qualifies. |
| Quadrants.GetIndexExact | Assets/m_Folder/m_Scripts/QuadTree/QuadTree.cs:100-136 | `GetIndex` returns q if and only if the box is in quadrant q (both directions). |
| Quadrants.OnSplitLineIsUnclassified | Assets/m_Folder/m_Scripts/QuadTree/QuadTree.cs:116-122 | A box whose center lies on either split line gets -1. |
| Quadrants.EdgeOnSplitLineIsClassified | Assets/m_Folder/m_Scripts/QuadTree/QuadTree.cs:116-122 | A box whose low edges lie exactly on both split lines, inside the node, is classified into quadrant 0 (the margin test is `>=`). |
| Quadrants.GetSliceIndex | Assets/m_Folder/m_Scripts/QuadTree/QuadTree.cs:143-178 | The loose classifier always answers a quadrant 0..3, never -1. |
| Quadrants.SliceIndexRefinesIndex | Assets/m_Folder/m_Scripts/QuadTree/QuadTree.cs:100-178 | Wherever `GetIndex` answers a quadrant, `GetSliceIndex` answers the same one. |
| Quadrants.SliceIndexOfSide | Assets/m_Folder/m_Scripts/QuadTree/QuadTree.cs:143-178 | A center strictly on quadrant q's side goes to q. A center on both split lines goes to quadrant 0 (ties go top and right). |
| Carving.Carve | Assets/m_Folder/m_Scripts/QuadTree/QuadTree.cs:397-481 | The number of pieces is twice the number of split lines that cut the rectangle's interior: 0, 2 or 4. It is 0 when neither line cuts the interior, for example when dx = 0 and dy = 0. |
| Carving.CarveAlongZTiles | Assets/m_Folder/m_Scripts/QuadTree/QuadTree.cs:433-456 | A rectangle cut only by z = pz becomes two pieces. They keep its x extent, have z sizes that sum to its z size, both have positive size, lie on opposite sides of the line and tile it. |
| Carving.CarveAlongXTilesIffSquare | Assets/m_Folder/m_Scripts/QuadTree/QuadTree.cs:457-479 | A rectangle cut only by x = px becomes two pieces whose x sizes sum to `size.z`. They tile it if and only if `size.x == size.z`. |
| Carving.PiecesOfHalf | Assets/m_Folder/m_Scripts/QuadTree/QuadTree.cs:413-456 | The two pieces of a half cut by z = pz go to the top and bottom quadrants on that half's side of x = px. |
| Carving.CarveSquareReachesEveryQuadrant | Assets/m_Folder/m_Scripts/QuadTree/QuadTree.cs:413-432 | A square cut by both lines yields four pieces that `GetSliceIndex` sends to four different quadrants. |
| Carving.WideRectangleMissesLeftQuadrants | Assets/m_Folder/m_Scripts/QuadTree/QuadTree.cs:457-465 | A 4-by-1 query at (1, 0.25) reaches x < 0. Yet every one of its four pieces is classified into quadrant 0 or 3, never into a left quadrant. |
| QuadTreeCore.MakeNode | Assets/m_Folder/m_Scripts/QuadTree/QuadTree.cs:53-66 | A new node has the given center, size and depth, and empty lists. At depth -1 its root link points to the node itself. At any other depth it has no root link. |
| QuadTreeCore.QuadTree.constructor | Assets/m_Folder/m_Scripts/QuadTree/QuadTree.cs:53-66 | The root tree is valid, holds no objects and consists of the single node of depth -1 that is its own root. |
| QuadTreeCore.QuadTree.Insert | Assets/m_Folder/m_Scripts/QuadTree/QuadTree.cs:185-228 | The tree stays valid, and a node that was settled (only unclassifiable objects at a node with children) stays settled. The multiset of all lists grows by exactly the new object, and the member set by exactly that object. Nodes are only appended and keep their geometry. A node that did not split kept its list or gained the object at its end. A node that split was a leaf above `MAX_Depth` holding at least `MAX_Objects`, and keeps only objects with `GetIndex` -1. Objects only move down. The new object lands at or below the starting node. |
| QuadTreeCore.QuadTree.AddHere | Assets/m_Folder/m_Scripts/QuadTree/QuadTree.cs:201-227 | Adding the object at a node (where a node with children gets it only when it is unclassifiable there), then splitting on overflow, has the same outcome as `Insert`: validity, exactly one more object, and settled nodes stay settled. |
| QuadTreeCore.QuadTree.Append | Assets/m_Folder/m_Scripts/QuadTree/QuadTree.cs:201-203 | The object is added at the end of node n's list and records node n and its depth. The multiset grows by exactly that object. |
| QuadTreeCore.QuadTree.SplitAndPushDown | Assets/m_Folder/m_Scripts/QuadTree/QuadTree.cs:207-227 | Splitting an overfull leaf, then moving every classifiable object of its list into the child that contains it, keeps the tree valid and the multiset of objects unchanged. The node gets new children. Afterwards every object left in the node has `GetIndex` -1 there, and settled nodes stay settled. |
| QuadTreeCore.QuadTree.Redistribute | Assets/m_Folder/m_Scripts/QuadTree/QuadTree.cs:214-225 | After the reverse loop over the split node's list, the tree is valid and the objects are unchanged. Every object left in the node has `GetIndex` -1 there, objects only moved down, and settled nodes stay settled. |
| QuadTreeCore.QuadTree.RedistributeStep | Assets/m_Folder/m_Scripts/QuadTree/QuadTree.cs:216-223 | One pass of that loop keeps its invariant. The tree stays valid and keeps its objects, and objects only move down. Every position from i on holds an object with `GetIndex` -1. |
| QuadTreeCore.QuadTree.MoveDown | Assets/m_Folder/m_Scripts/QuadTree/QuadTree.cs:216-223 | One step of that loop. An unclassifiable object leaves the node unchanged. A classifiable one leaves the list and is inserted into its child. The multiset of objects is preserved, objects only move down, and settled nodes stay settled. |
| QuadTreeCore.QuadTree.RemoveAt | Assets/m_Folder/m_Scripts/QuadTree/QuadTree.cs:219 | `List.Remove` of element i removes exactly position i. The tree stays valid, the object leaves the member set and the multiset exactly once, and settled nodes stay settled. |
| QuadTreeCore.QuadTree.ReinsertAt | Assets/m_Folder/m_Scripts/QuadTree/QuadTree.cs:295-313 | Removing element i of node n's list and inserting it at node t keeps the multiset and member set. The object ends up at or below t, and settled nodes stay settled. |
| QuadTreeCore.QuadTree.RefreshStep | Assets/m_Folder/m_Scripts/QuadTree/QuadTree.cs:289-314 | One step of `Refresh`'s reverse loop. An object the root cannot classify stays in the root's list and nothing changes. Otherwise position i is removed, and where the object is unclassifiable or n is a leaf it may come back at the end of the list. A classifiable object at a node with children ends up in that child's subtree. Every other object of the list stays in it, the multiset is unchanged, and settled nodes stay settled. |
| QuadTreeCore.QuadTree.Refresh | Assets/m_Folder/m_Scripts/QuadTree/QuadTree.cs:283-322 | The whole tree keeps its multiset of objects and its validity, and nodes are only appended. An object in the root's list that the root cannot classify is still in the root's list afterwards. Afterwards every node of n's subtree that has children holds only objects that fit none of its quadrants (`SettledAt`); for n = 0 that is the whole tree. A node that was settled before stays settled (`StaysSettled`). |
| QuadTreeCore.QuadTree.RefreshList | Assets/m_Folder/m_Scripts/QuadTree/QuadTree.cs:287-315 | The reverse loop over n's list keeps the multiset, the member set and validity. Afterwards, if n has children, every object left in its list has `GetIndex` -1 there. Unclassifiable objects of the root stay in the root, and settled nodes stay settled. |
| QuadTreeCore.QuadTree.RefreshChild | Assets/m_Folder/m_Scripts/QuadTree/QuadTree.cs:317-320 | Refreshing child j of n keeps n settled, keeps the subtrees of children 0 to j-1 settled, and adds child j's subtree. |
| QuadTreeCore.SubtreesStaySettled | Assets/m_Folder/m_Scripts/QuadTree/QuadTree.cs:317-320 | Refreshing a later child cannot unsettle a node under an earlier child: nodes only append, so descent in the new arena restricted to old nodes is descent in the old one (`DescendsShrink`). |
| QuadTreeCore.SettledBelow | Assets/m_Folder/m_Scripts/QuadTree/QuadTree.cs:283-322 | A settled node whose children's subtrees are settled has a settled subtree. |
| QuadTreeCore.DescendsShrink | Assets/m_Folder/m_Scripts/QuadTree/QuadTree.cs:71-93 | Since `Split` only appends children to leaves, a descent path in the grown arena between two old nodes is already a path in the old arena. |
| QuadTreeCore.UnclassifiedAfterStep | Assets/m_Folder/m_Scripts/QuadTree/QuadTree.cs:289-314 | Each outcome of a `Refresh` step at a node with children (object kept, removed, or sent round and appended) keeps every position from i on at `GetIndex` -1. |
| QuadTreeCore.AppendStaysSettled | Assets/m_Folder/m_Scripts/QuadTree/QuadTree.cs:202-204 | Adding an object to a node's list keeps every settled node settled, provided a node with children gets only an unclassifiable object. |
| QuadTreeCore.SplitStaysSettled | Assets/m_Folder/m_Scripts/QuadTree/QuadTree.cs:207-227 | A node settled before a split stays settled after the push-down. The split node is settled at the end, and the split itself changes only the old leaf and appends leaves. |
| QuadTreeCore.QuadTree.Clear | Assets/m_Folder/m_Scripts/QuadTree/QuadTree.cs:327-331 | Node n's list becomes empty, nothing else changes, and the tree's multiset loses exactly that list. A valid tree stays valid. |
| QuadTreeCore.QuadTree.Retrieve | Assets/m_Folder/m_Scripts/QuadTree/QuadTree.cs:236-278 | The answer is the reference definition `Candidates`. Each carved piece only chooses the child, the child is asked about the whole query, and the node's own list comes last. |
| QuadTreeCore.LeafCandidates | Assets/m_Folder/m_Scripts/QuadTree/QuadTree.cs:236-278 | On a leaf, `Retrieve` answers exactly the leaf's list. |
| QuadTreeCore.CandidatesBelow | Assets/m_Folder/m_Scripts/QuadTree/QuadTree.cs:236-278 | Every object `Retrieve` reports is stored in the node searched or below it. |
| QuadTreeCore.CandidatesStored | Assets/m_Folder/m_Scripts/QuadTree/QuadTree.cs:236-278 | Every object `Retrieve` reports is stored in the tree. |
| QuadTreeCore.ClassifiedQueryOneChild | Assets/m_Folder/m_Scripts/QuadTree/QuadTree.cs:241-247 | A query the node classifies is answered from that one child's subtree, followed by the node's own list. |
| QuadTreeCore.EdgeQueryAsksNoChild | Assets/m_Folder/m_Scripts/QuadTree/QuadTree.cs:241-272 | At a node with children, a query no quadrant contains and no split line cuts is answered by the node's own list alone. |
| QuadTreeCore.MissedNeighbourGeometry | Assets/m_Folder/m_Scripts/QuadTree/QuadTree.cs:100-178 | Two overlapping cubes of side 0.5, the query at (-0.1, 3) and b at (0.3, 3). At a root of size 20 at the origin, b is classified into quadrant 0. The query is unclassified there and carved into pieces for children 0 then 1. At the top-right child (center (5, 5), size 10), b is classified into quadrant 2. The query is neither classified nor cut there. |
| QuadTreeCore.CubeQueryMissesNeighbour | Assets/m_Folder/m_Scripts/QuadTree/QuadTree.cs:236-278 | In such a root whose top-right child has split, the query's answer is child 1's answer, then the top-right child's own list, then the root's list. Nothing stored below the top-right child, where b belongs, is reported. |
| QuadTreeCore.TwoPieceCandidates | Assets/m_Folder/m_Scripts/QuadTree/QuadTree.cs:252-272 | A query carved into two pieces is answered by the child of the second piece, then the child of the first. |
| QuadTreeCore.WideQueryRepeatsChildren | Assets/m_Folder/m_Scripts/QuadTree/QuadTree.cs:248-270 | At a node centered at the origin, the 4-by-1 query at (1, 0.25) is answered by children 0, 3, 0, 3 and then the node's list. Duplicates occur, and the left children are never asked. |
| QuadTreeCore.CollisionObject.constructor | Assets/m_Folder/m_Scripts/QuadTree/QuadTree.cs:354-360 | The object has the given center and size, and its half size is size * 0.5. |
| QuadTreeCore.CollisionObject.SetDepth | Assets/m_Folder/m_Scripts/QuadTree/QuadTree.cs:565-568 | Only the depth field changes, to the given value. |
| QuadTreeCore.CollisionObject.SetCurrentTree | Assets/m_Folder/m_Scripts/QuadTree/QuadTree.cs:570-573 | Only the holding-node field changes, to the given node. |
| Response.CollideVelocity | Assets/m_Folder/m_Scripts/QuadTree/QuadTree.cs:487-516 | Take an axis where the extents meet (inclusive). On it the speed becomes the mean of the two speeds, and a positive velocity implies this object's center is greater. A greater center implies a non-negative velocity. Ties therefore point negative. On an axis where the extents do not meet, the velocity is kept. The y component is kept. |
| QuadTreeCore.CollisionObject.Collide | Assets/m_Folder/m_Scripts/QuadTree/QuadTree.cs:487-516 | The new velocity is `CollideVelocity` of this object against the other, computed from both old velocities. |
| Response.Bounce | Assets/m_Folder/m_Scripts/QuadTree/QuadTree.cs:552-563 | Boxes that do not overlap keep both velocities. No y component changes. |
| Response.PairResponse | Assets/m_Folder/m_Scripts/QuadTree/QuadTree.cs:552-563 | On overlap, per axis: object 1's speed becomes (abs(v1) + abs(v2)) / 2. Object 2, reading object 1's new velocity, gets (abs(v1) + 3 abs(v2)) / 4. The two move apart unless their centers coincide on that axis, where both velocities are non-positive. |
| QuadTreeCore.CollisionObject.IsCollide | Assets/m_Folder/m_Scripts/QuadTree/QuadTree.cs:552-563 | For two distinct objects, the pair of new velocities is `Bounce`: object 1 first, then object 2 from object 1's new velocity. Passing one object twice makes it collide with itself twice. |
| Response.WallResponse | Assets/m_Folder/m_Scripts/QuadTree/QuadTree.cs:522-545 | The wall response never changes the y components of the center or the velocity. |
| Response.WallResponseOnX | Assets/m_Folder/m_Scripts/QuadTree/QuadTree.cs:527-535 | When abs(c.x - b.x) + hx >= b.size.x / 2, `velocity.x` is negated and `center.x` becomes limit x (if c.x < b.x) or limit y. Otherwise x is untouched. |
| Response.WallResponseOnZ | Assets/m_Folder/m_Scripts/QuadTree/QuadTree.cs:536-543 | The same on z, with limits z and w. |
| QuadTreeCore.CollisionObject.CollideBounds | Assets/m_Folder/m_Scripts/QuadTree/QuadTree.cs:522-545 | The new center and velocity are the `WallResponse` of the old ones. |
| QuadTreeCore.CollisionObject.CollideAll | Assets/m_Folder/m_Scripts/QuadTree/QuadTree.cs:380-386 | After the candidate loop, every velocity is the one `Sweep` gives. `Sweep` applies `IsCollide(this, c)` for each candidate c other than this object, in order. |
| QuadTreeCore.Sweep | Assets/m_Folder/m_Scripts/QuadTree/QuadTree.cs:380-386 | The reference definition of the candidate loop: each candidate other than the object itself, in order, updates both velocities by `Bounce`. It assigns a velocity to exactly the objects it was given. |
| QuadTreeCore.SweepKeepsOthers | Assets/m_Folder/m_Scripts/QuadTree/QuadTree.cs:380-386 | An object that is neither the mover nor a candidate keeps its velocity through the loop. |
| QuadTreeCore.SweepKeepsY | Assets/m_Folder/m_Scripts/QuadTree/QuadTree.cs:380-386 | The loop never changes a velocity's y component. |
| QuadTreeCore.SweepWithoutContact | Assets/m_Folder/m_Scripts/QuadTree/QuadTree.cs:380-386 | When the mover overlaps no other candidate, the loop changes no velocity. |
| QuadTreeCore.CollisionObject.Update | Assets/m_Folder/m_Scripts/QuadTree/QuadTree.cs:371-390 | The object moves by velocity * dt. Every candidate the root's `Retrieve` reports for the moved box is a tree member. The final center and velocity are the `WallResponse` at the root's box of the swept velocity, and every other member takes its swept velocity. y positions move only by velocity.y * dt, and no y velocity changes. |
| Timers.Started | Assets/m_Folder/m_Scripts/TimerManager.cs:75-88 | A new timer is running and unpaused, has no handlers, keeps the given duration and has nothing elapsed. |
| Timers.Timer.constructor | Assets/m_Folder/m_Scripts/TimerManager.cs:75-88 | The timer's state is `Started` at `now`, with the given flag and loop setting. |
| Timers.Clamp01 | Assets/m_Folder/m_Scripts/TimerManager.cs:138 | The result lies in [0, 1], equals x inside that range, and is the nearer bound outside it. |
| Timers.Fraction | Assets/m_Folder/m_Scripts/TimerManager.cs:138 | The reported progress lies in [0, 1]. For a positive duration and an elapsed time within it, it is exactly elapsed / duration. It is 1 once the elapsed time reaches a positive duration, and 0 when nothing has elapsed. |
| Timers.Paused | Assets/m_Folder/m_Scripts/TimerManager.cs:95-105 | A finished timer is unchanged. Any other timer becomes paused, and nothing else changes. |
| Timers.Timer.Pause | Assets/m_Folder/m_Scripts/TimerManager.cs:95-105 | The new state is `Paused` of the old one. |
| Timers.Resumed | Assets/m_Folder/m_Scripts/TimerManager.cs:109-127 | Only a paused, unfinished timer changes. It becomes unpaused, with `now - cachedTime` equal to the time elapsed before the pause. Every other field is unchanged. |
| Timers.Timer.Resum | Assets/m_Folder/m_Scripts/TimerManager.cs:109-127 | The new state is `Resumed` of the old one at `now`. |
| Timers.UpdateEvents | Assets/m_Folder/m_Scripts/TimerManager.cs:138 | Invoking the update event calls each handler once, in list order, with the same progress. |
| Timers.CompleteEvents | Assets/m_Folder/m_Scripts/TimerManager.cs:141 | Invoking the complete event calls each handler once, in list order. |
| Timers.Step | Assets/m_Folder/m_Scripts/TimerManager.cs:132-152 | A finished or paused timer is unchanged and fires nothing. Every reported progress lies in [0, 1]. A timer finishes only if it was finished, or if it is one-shot and its elapsed time reached the duration. |
| Timers.StepEvents | Assets/m_Folder/m_Scripts/TimerManager.cs:134-142 | A running timer records `timePassed = now - cachedTime`. Before its duration it fires only the update handlers, with that fraction. At the duration it fires the update handlers and then every complete handler, with progress 1 for a positive duration. |
| Timers.StepAtDeadline | Assets/m_Folder/m_Scripts/TimerManager.cs:139-150 | At the deadline a looping timer records the elapsed time and restarts its count at the same reading `now`, keeping every other field, handlers included. A one-shot timer records the elapsed time and is `Stopped`. |
| Timers.Stopped | Assets/m_Folder/m_Scripts/TimerManager.cs:157-168 | A stopped timer is finished and unpaused, has duration -1 and has no handlers. Its times are kept. |
| Timers.Timer.Stop | Assets/m_Folder/m_Scripts/TimerManager.cs:157-168 | The state becomes `Stopped`, and the timer is removed once from the registry list. |
| Timers.StoppedIsFinal | Assets/m_Folder/m_Scripts/TimerManager.cs:95-168 | A stopped timer is inert. Update, pause and resume leave it unchanged, and an update fires nothing. |
| Timers.CompletesOnce | Assets/m_Folder/m_Scripts/TimerManager.cs:139-150 | After a one-shot timer completes, any later update fires nothing. |
| Timers.PauseExcludesPausedTime | Assets/m_Folder/m_Scripts/TimerManager.cs:95-138 | Suppose a timer is updated at t1, paused, resumed at t2 and updated at t3. The final update measures (t1 - start) + (t3 - t2): the paused interval does not count. |
| Timers.LoopNeverExpires | Assets/m_Folder/m_Scripts/TimerManager.cs:143-150 | `Update` never stops a looping timer. |
| Timers.Timer.Update | Assets/m_Folder/m_Scripts/TimerManager.cs:132-152 | The new state and the events are those of `Step`. The timer leaves the registry exactly when `Step` stops it. |
| Timers.TimerRegistry.constructor | Assets/m_Folder/m_Scripts/TimerManager.cs:13 | The registry starts empty. |
| Timers.TimerRegistry.AddTimer | Assets/m_Folder/m_Scripts/TimerManager.cs:180-185 | Exactly one fresh timer, in the `Started` state, is appended to the list, even when its flag is already taken. The registry invariant is kept. |
| Timers.FindFlag | Assets/m_Folder/m_Scripts/TimerManager.cs:222-225 | The answer is the index of the first timer with the flag. It is none exactly when no timer has the flag. |
| Timers.TimerRegistry.Exist | Assets/m_Folder/m_Scripts/TimerManager.cs:205-208 | True if and only if some registered timer has the flag. |
| Timers.TimerRegistry.ExistTimer | Assets/m_Folder/m_Scripts/TimerManager.cs:213-216 | True if and only if the timer is registered. |
| Timers.TimerRegistry.GetTimer | Assets/m_Folder/m_Scripts/TimerManager.cs:222-225 | The answer is none exactly when `Exist` is false. Otherwise it is a registered timer with the flag, and no earlier timer has the flag. |
| Timers.TimerRegistry.PauseFlag | Assets/m_Folder/m_Scripts/TimerManager.cs:232-244 | The first timer with the flag, if any, becomes `Paused`. The registry's invariant is kept. |
| Timers.TimerRegistry.PauseTimer | Assets/m_Folder/m_Scripts/TimerManager.cs:248-258 | A registered timer becomes `Paused`. An unregistered one is unchanged. The registry's invariant is kept. |
| Timers.TimerRegistry.ResumFlag | Assets/m_Folder/m_Scripts/TimerManager.cs:263-275 | The first timer with the flag, if any, becomes `Resumed`. The registry's invariant is kept. |
| Timers.TimerRegistry.ResumTimer | Assets/m_Folder/m_Scripts/TimerManager.cs:279-289 | A registered timer becomes `Resumed`. An unregistered one is unchanged. The registry's invariant is kept. |
| Timers.TimerRegistry.DeleteFlag | Assets/m_Folder/m_Scripts/TimerManager.cs:296-308 | The first timer with the flag, if any, is `Stopped` and no longer registered. Otherwise the list is unchanged. |
| Timers.TimerRegistry.DeleteTimer | Assets/m_Folder/m_Scripts/TimerManager.cs:312-322 | A registered timer is `Stopped` and removed. Afterwards the timer is not registered. An unregistered timer and the list are unchanged. |
| Timers.RemoveFirstGone | Assets/m_Folder/m_Scripts/TimerManager.cs:159-162 | Removing a timer from a duplicate-free list leaves it out entirely, after which `Exist(timer)` is false. |
| Timers.TimerRegistry.RemoveAll | Assets/m_Folder/m_Scripts/TimerManager.cs:328-332 | Every timer registered before is `Stopped`, and the list is empty. |
| Timers.AddHandler | Assets/m_Folder/m_Scripts/TimerManager.cs:341-372 | The handler is in the new list, and the set of handlers gains exactly it. A handler already present leaves the list unchanged. A new one is appended. |
| Timers.AddHandlerNoDup | Assets/m_Folder/m_Scripts/TimerManager.cs:341-372 | Invocation lists built this way never hold a handler twice. |
| Timers.Timer.AddCompleteEvent | Assets/m_Folder/m_Scripts/TimerManager.cs:341-355 | The complete list becomes `AddHandler` of the old one. |
| Timers.Timer.AddUpdateEvent | Assets/m_Folder/m_Scripts/TimerManager.cs:357-372 | The update list becomes `AddHandler` of the old one. |
| Timers.Schedule | Assets/m_Folder/m_Scripts/TimerManager.cs:190-199 | There is one visit flag per registered timer. |
| Timers.ScheduleSkips | Assets/m_Folder/m_Scripts/TimerManager.cs:190-199 | The walk visits the first timer. After that it visits timer k if and only if timer k-1 was not both visited and stopping. |
| Timers.ScheduleAllWhenNoneStop | Assets/m_Folder/m_Scripts/TimerManager.cs:190-199 | When no timer stops, every timer is updated. |
| Timers.Stepped | Assets/m_Folder/m_Scripts/TimerManager.cs:190-199 | A visited timer takes its `Step`, and every other timer keeps its state. |
| Timers.TimerRegistry.UpdateAllTimer | Assets/m_Folder/m_Scripts/TimerManager.cs:190-199 | The list afterwards is the `Survivors`: every timer except the visited ones that stopped. Each timer's new state is `Stepped`, according to `Schedule`. The events are those of the visited timers in list order. The registry invariant is kept. |
| Timers.Survivors | Assets/m_Folder/m_Scripts/TimerManager.cs:190-199 | The reference definition of the list after the walk: the timers in order, minus the visited ones that stop. It is never longer than the list it starts from. Its companion `Fired`, the walk's events in list order, is stated in the `UpdateAllTimer` row. |
| Timers.TimerRegistry.Visit | Assets/m_Folder/m_Scripts/TimerManager.cs:192-197 | One loop pass updates the timer at index i. It fires that timer's `Step` events and removes it from the list if it stops. |
| Timers.TimerRegistry.UpdateAt | Assets/m_Folder/m_Scripts/TimerManager.cs:196 | The timer at index i takes its `Step`. It leaves the list exactly when it stops, and no other timer's state changes. |
| Driver.CenterLimits | Assets/m_Folder/m_Scripts/QuadTree/CreateQuadTreeWithBounds.cs:35-42 | A cube of side f clamped to limit x or y sits flush with the near or far x wall of the tree's box, and likewise z and w on z. Limit x <= limit y if and only if f <= size.x, and likewise on z. |
| Driver.Trunc | Assets/m_Folder/m_Scripts/QuadTree/CreateQuadTreeWithBounds.cs:47-48 | The cast `(int)` truncates toward zero: the result lies within one unit of the value, on the zero side. |
| Driver.TruncDraw | Assets/m_Folder/m_Scripts/QuadTree/CreateQuadTreeWithBounds.cs:55-57 | A speed drawn from [1, max] truncates to a whole number in [1, max]. |
| Driver.SpawnInside | Assets/m_Folder/m_Scripts/QuadTree/CreateQuadTreeWithBounds.cs:47-53 | A spawn position drawn from `Start`'s ranges lies strictly between the clamp limits, so the cube starts inside the tree's box. |
| Driver.WallKeepsInside | Assets/m_Folder/m_Scripts/QuadTree/QuadTree.cs:522-545 | With limits from `CenterLimits` and a cube that fits the box, the wall response leaves the cube inside the box, whatever the position and velocity before it. |
| Driver.CreateQuadTreeWithBounds.Bounds | Assets/m_Folder/m_Scripts/QuadTree/CreateQuadTreeWithBounds.cs:30 | The root box is centered at the driver's position, with width xWidth and depth yWidth. |
| Driver.CreateQuadTreeWithBounds.Start | Assets/m_Folder/m_Scripts/QuadTree/CreateQuadTreeWithBounds.cs:27-69 | There is a fresh tree with one object per draw. Each object is centered at its drawn x/z in the plane y = position.y, with speeds truncated from the draws and y speed 0. Each is a cube of side `boundsSizeFactor` with the common limits. All objects are stored in the tree exactly once, in a valid tree rooted at the driver's box. |
| Driver.CreateQuadTreeWithBounds.Spawn | Assets/m_Folder/m_Scripts/QuadTree/CreateQuadTreeWithBounds.cs:44-62 | Each draw yields one fresh, distinct object with its center, truncated velocity, cube size, half size and the shared `CenterLimits`. |
| Driver.CreateQuadTreeWithBounds.InsertAll | Assets/m_Folder/m_Scripts/QuadTree/CreateQuadTreeWithBounds.cs:64-68 | Into an empty valid tree, inserting every object in order gives a valid tree whose multiset is exactly the objects, each once. |
| Driver.CreateQuadTreeWithBounds.InsertNext | Assets/m_Folder/m_Scripts/QuadTree/CreateQuadTreeWithBounds.cs:67 | One insertion extends the stored multiset and members from the first i objects to the first i + 1. |
| Driver.CreateQuadTreeWithBounds.Tick | Assets/m_Folder/m_Scripts/QuadTree/CreateQuadTreeWithBounds.cs:71-81 | One refresh at the root, then every object's `Update` in array order. The tree keeps exactly the objects, each once, and stays valid. Nodes are only appended. Every object stays in the plane with no vertical speed. When the cubes fit the box, every object ends the frame inside it. |
| Driver.CreateQuadTreeWithBounds.Move | Assets/m_Folder/m_Scripts/QuadTree/CreateQuadTreeWithBounds.cs:76-80 | Object i's `Update` leaves the tree's nodes untouched and keeps the shared limits and the flat plane. Object i moves to its swept position and gets the velocity of `Sweep` over the candidates `Retrieve` returns there, followed by `WallResponse`; every other object keeps its center and gets its `Sweep` velocity. When the cube fits the box, object i ends inside it. |
| Driver.CreateQuadTreeWithBounds.MoveNext | Assets/m_Folder/m_Scripts/QuadTree/CreateQuadTreeWithBounds.cs:76-80 | One round of the frame loop: object i is moved, the tree's nodes stay as the refresh left them, and when the cubes fit the box objects 0 to i are inside it. |

## Left out

- Rendering and diagnostics are not modelled: `bounds` bookkeeping, `drawColor` and `ChangeColor` (which draws from `UnityEngine.Random`), `objectName`, the `quadrant` field, Gizmos, `DrawBounds`, `OnDrawGizmos`, `DrawChildNode`, the editor script and the `showLog`/`Debug.Log` messages. None of them affects the tree, the objects' motion or the timers.
- The `UNITY_EDITOR` branch of `Retrieve` pauses the editor when a piece is unclassified. Only the release branch is modelled. With reals `GetSliceIndex` never answers -1, so the two branches agree.
- Floating-point rounding is not modelled; coordinates and times are exact reals. `Fraction` reports progress 0 where the source would compute 0/0 (NaN) for a zero duration with nothing elapsed.
- Unity's frame clock is a parameter, not a read of global state. `Time.deltaTime` becomes the parameter `dt` of `CollisionObject.Update` and `Tick`. `Time.realtimeSinceStartup` becomes the parameter `now` of the timer operations.
- Timers.StepAtDeadline: one reading `now` stands for both clock reads of `Timer.Update` (TimerManager.cs:136 and, for a looping timer, TimerManager.cs:144). The source reads the clock again after the update and complete handlers have run, so a slow handler makes a looping timer drift; the model restarts the count at `now` and does not capture that drift.
- Timers.TimerRegistry.UpdateAllTimer: one reading `now` stands for every clock read of the whole walk. In the source each timer reads the clock itself, after the earlier timers' handlers have run, so the skew between timers is not modelled.
- `Random.Range` draws in the driver are inputs (`Draw`). `ObjectCount` is their number. The limits `maxXVelocity` and `maxYVelocity` appear only as the `max` of `TruncDraw`.
- Delegates are opaque `nat` tokens. Invoking an event is recorded as a returned list of `Event`s, in invocation order, instead of running the handlers. Handlers that re-enter the timer registry are therefore not modelled.
- The source's static list `MyTimers` is the field of an explicit `TimerRegistry` object, passed to `Timer.Update` and `Timer.Stop`. Its `null` entries are not modelled: timers are references that are never null. The `TimerManager` singleton, the `OnComplete`/`OnUpdate` extension methods and `Duration` are thin wrappers and are not modelled separately. Assets/m_Folder/m_Scripts/AudioManager.cs and Singleton.cs are not part of this model.
- `AddTimer`'s default arguments (`flag = ""`, `loop = false`) are not modelled. Every call passes all of its arguments, and a call that relied on the defaults is `AddTimer(time, "", false, now)`.
- Overloads get distinct names. `AddEvent` is `AddCompleteEvent` and `AddUpdateEvent`. `Pause`, `Resum` and `Delete` by flag or by timer are `PauseFlag`/`PauseTimer`, `ResumFlag`/`ResumTimer` and `DeleteFlag`/`DeleteTimer`. `Exist(Timer)` is `ExistTimer`. `Collide(Bounds)` is `CollideBounds`.
- Timers.TimerRegistry.RemoveAll: the source stops timers inside `List.ForEach` while `Stop` removes them from the same list, which depending on the runtime may throw or skip timers. The model stops every timer of a snapshot of the list and then empties it, so it states the intended outcome rather than that hazard.
- Timers.Schedule: its own contract states only the length. What it means is stated by `ScheduleSkips` and `ScheduleAllWhenNoneStop`.
- `IsCollide` is an instance method in the source that never touches its receiver. It is modelled as a static method.
- `CollisionObject.Update` takes the tree as a parameter, and the root is found through the object's `currentTree` index and the node's `rootTree`. `tempList` is a local, not a field.
- The driver's `objects` array is a sequence of object references fixed by `Start`. The driver's `Update` is named `Tick`.
- Driver.CreateQuadTreeWithBounds.Tick: states the tree and scene invariants and containment, not each object's final velocity over the whole frame. That per-object outcome is stated one call at a time by `CollisionObject.Update`.
- Nodes are arena records, not separate objects. A node's children are created by `Split` and never removed, as in the source, so an arena index stays valid. `Clear` empties a list but leaves the removed objects' stale `currentTree`/`depth`, as the source does.
