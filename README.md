# octreelib octree core in Dafny

This project models the octree engine of octreelib. An octree node is an axis-aligned cube. It is either a
leaf holding an ordered point cloud, or an internal node with eight half-size children. The children
cover the parent's cube at the corner offsets `{0, edge/2}^3`, in the order `itertools.product` gives
them. The model covers both variants:

- the plain `OctreeNode`/`Octree`: subdivide, insert, filter, map over the leaves, point queries and counts;
- `MultiPoseOctreeNode`/`MultiPoseOctree`: every point carries an integer pose number. Routing ignores the
  pose, the leaf map works pose by pose, and the queries and counts are projections onto one pose.

Modules:

- `Geometry`: points, cubes, half-open containment, the corner offsets and the eight-way split.
- `Seqs`: sums, concatenation and order-preserving selection over sequences, with their algebra.
- `OctreeModel`: the value of a node, `Tree<P>`, and every operation of `OctreeNode` as a function on
  that value. The tree is generic in the stored point type `P`. A projection `loc: P -> Point` gives the
  coordinates that decide routing.
- `OctreeProps`: lemmas about those functions. They cover conservation of points under insertion and
  subdivision, the structural invariants, and what filter and map keep.
- `Octrees`: the heap objects. `OctreeNode<P>` has fields `points`, `children` and `hasChildren`, which
  its methods update in place. `Octree<P>` delegates to its root. Every method is proved to turn the
  node's value (`Model()`) into the matching `OctreeModel` function of the old value.
- `MultiPoseModel`: pose-tagged points, `_filter_by_pose_number`, and the per-pose queries and counts as
  functions, with their lemmas.
- `MultiPoseOctrees`: the pose-tagged node. It is an `OctreeNode<PosePoint>` routed by the untagged
  coordinates. This module adds the per-pose `map_leaf_points` (a loop over the pose set), `subdivide`
  on untagged points, and the `MultiPoseOctree` facade with its per-pose queries.

Coordinates are exact reals, so halving an edge is exact. Containment is half-open: minimum faces
inclusive, maximum faces exclusive. Under that convention the routing loop sends a point in the node's
cube to exactly one child (`Geometry.ChildrenPartition`).

Subdivision is usually described as splitting leaves. The code, which the model follows, tests the
criteria on the node's own point list whether or not the node already has children. When an internal
node's criteria accept the empty cloud, the source replaces its children by eight fresh empty leaves,
re-inserts nothing and recurses depth-first into the first of them. The same criterion holds on that
empty leaf, and on its first child, and so on: the recursion has no bound and the source raises
`RecursionError`. The model's `fuel` bound cuts that recursion off, and what it then produces, a subtree
without points (`OctreeProps.SubdivideInternalDiscards`), is an artefact of the bound, not a result of
the source. Conservation (`OctreeProps.SubdivideConserves`) requires the node to be a leaf or the
criteria to reject the empty cloud; that excludes only calls on which the source raises
`RecursionError`. Other such calls remain covered: a count criterion over duplicated points also makes
the source recurse without bound, and there the model still conserves the points at every fuel.

## Model

| member | source | states |
|---|---|---|
| `Geometry.BoundingBox` | octreelib/octree/octree.py:84-86 | `bounding_box`: the minimum corner and the corner plus the edge length on every axis |
| `Geometry.InsideRange` | octreelib/octree/octree.py:28 | `point_is_inside_box(point, (lo, hi))`: half-open containment in any axis-aligned box given by its minimum and maximum corners |
| `Geometry.Inside` | octreelib/octree/octree.py:57 | containment in a node's cube: `point_is_inside_box` against the node's `bounding_box` |
| `Geometry.Offsets` | octreelib/octree/octree.py:32-35 | the eight corner offsets in `itertools.product([0, h], repeat=3)` order, z varying fastest |
| `Geometry.ChildBox` | octreelib/octree/octree.py:36-39 | child `i`: half the edge length, the corner moved by the `i`-th offset |
| `Geometry.ChildIndex` | octreelib/octree/octree.py:55-58 | the index of the child whose cube holds a point: one bit per axis, x most significant |
| `OctreeModel.InRange` | octreelib/octree/octree.py:28 | the filter predicate of `get_points_inside_box`: a stored point's coordinates lie in the query box |
| `OctreeModel.Route` | octreelib/octree/octree.py:55-58 | the points a box contains, in order |
| `OctreeModel.Points` | octreelib/octree/octree.py:46-51 | `get_points`: a leaf's cloud, or the children's results concatenated in order |
| `OctreeModel.PointsInBox` | octreelib/octree/octree.py:22-28 | `get_points_inside_box`: for a query box given as a (minimum, maximum) pair of corners, at a leaf the points of the cloud it contains, else the children's results concatenated |
| `OctreeModel.NPoints` | octreelib/octree/octree.py:98-104 | `n_points`: a leaf's cloud length, or the sum over the children |
| `OctreeModel.NLeaves` | octreelib/octree/octree.py:88-92 | `n_leafs`: one per leaf, empty or not, summed over the children |
| `OctreeModel.NNodes` | octreelib/octree/octree.py:94-96 | `n_nodes` as written: the number of direct children, 0 for a leaf |
| `OctreeModel.LeafNodePoints` | octreelib/octree/octree.py:79-82 | `get_leaf_node_points`: a leaf gives the list of its one cloud, an internal node the list of its children's results, nested |
| `OctreeModel.LeafClouds` | octreelib/octree/octree.py:79-82 | the reference listing of leaf clouds: for a list of leaves, one cloud per leaf, the `i`-th being the `i`-th leaf's point list |
| `OctreeModel.Leaves` | octreelib/octree/octree.py:88-92 | the leaves in the left-to-right order the recursive queries visit them; every entry is a leaf |
| `OctreeModel.Insert` | octreelib/octree/octree.py:53-60 | `insert_points`: a leaf appends the cloud unchecked; an internal node gives each child the points its cube contains, in order; the result keeps the cubes and the shape |
| `OctreeModel.AnyHolds` | octreelib/octree/octree.py:31 | `any(criterion(points) ...)` |
| `OctreeModel.AllHold` | octreelib/octree/octree.py:69 | `all(criterion(points) ...)` |
| `OctreeModel.EmptyChildren` | octreelib/octree/octree.py:36-39 | the eight fresh empty leaves at the child cubes |
| `OctreeModel.Split` | octreelib/octree/octree.py:36-42 | the split step: the fresh children receive the node's own points by routing; the result is internal with eight children over the same cube |
| `OctreeModel.Subdivide` | octreelib/octree/octree.py:30-44 | `subdivide`, bounded by `fuel`: split when some criterion holds on the node's own points, then subdivide every child; otherwise unchanged; the cube is kept |
| `OctreeModel.Filter` | octreelib/octree/octree.py:62-70 | `filter`: a leaf keeps its cloud only if every criterion holds; an internal node filters its children and becomes an empty leaf when all are then empty; the cube is kept |
| `OctreeModel.MapLeaves` | octreelib/octree/octree.py:72-77 | `map_leaf_points`: every non-empty leaf's cloud becomes `f` of it |
| `MultiPoseModel.Coords` | octreelib/octree/multi_pose_octree.py:141 | the routing projection of a pose point: its coordinates without the tag |
| `MultiPoseModel.WithoutPoses` | octreelib/octree/multi_pose_octree.py:78 | `without_poses`: the coordinates of every point, in order; same length |
| `MultiPoseModel.WithPose` | octreelib/octree/multi_pose_octree.py:95-97 | `with_pose(n)`: every point tagged `n`, in order; same length |
| `MultiPoseModel.ForPose` | octreelib/octree/multi_pose_octree.py:24-30 | `_filter_by_pose_number`: the points tagged `n`, in order |
| `MultiPoseModel.Poses` | octreelib/octree/multi_pose_octree.py:91 | `set(points.poses())` |
| `MultiPoseModel.Lift` | octreelib/octree/multi_pose_octree.py:107-112 | each criterion applied to the cloud without its tags |
| `MultiPoseModel.PointsForPose` | octreelib/octree/multi_pose_octree.py:65-79 | `get_points_for_pose`: a leaf's untagged pose-`n` points, or the children's results concatenated |
| `MultiPoseModel.NPointsForPose` | octreelib/octree/multi_pose_octree.py:158-169 | `n_points_for_pose`: a leaf's number of pose-`n` points, or the sum over the children |
| `MultiPoseModel.NLeavesForPose` | octreelib/octree/multi_pose_octree.py:171-182 | `n_leaves_for_pose`: 1 for a leaf holding a pose-`n` point, else 0, summed over the children |
| `MultiPoseModel.NNodesForPose` | octreelib/octree/multi_pose_octree.py:184-204 | `n_nodes_for_pose`: a leaf as for `n_leaves_for_pose`; an internal node adds 1 to its children's sum when that sum is non-zero |
| `MultiPoseModel.LeafPointsForPose` | octreelib/octree/multi_pose_octree.py:39-63 | `get_leaf_points_for_pose`: a leaf holding pose-`n` points gives one voxel of its cube and those points untagged; an internal node concatenates its children's results |
| `MultiPoseModel.LeafVoxels` | octreelib/octree/multi_pose_octree.py:54-63 | the reference listing: for each leaf in order that holds pose-`n` points, its cube and those points untagged |
| `MultiPoseModel.Strip` | octreelib/octree/multi_pose_octree.py:141 | the tree with every point's tag removed; cubes and shape kept |
| `MultiPoseModel.InsertPointAsWritten` | octreelib/octree/multi_pose_octree.py:139-144 | `_insert_point` as written: a leaf appends the point; a node with children raises on its first child's `bounding_box` |
| `MultiPoseModel.MappedGroup` | octreelib/octree/multi_pose_octree.py:93-97 | the points of one pose, untagged, mapped by `f` and tagged again |
| `MultiPoseModel.GroupsMapped` | octreelib/octree/multi_pose_octree.py:89-100 | the per-pose map of one cloud: every pose present is replaced by its mapped group, and no other pose appears |
| `MultiPoseModel.MappedByPose` | octreelib/octree/multi_pose_octree.py:81-100 | the per-pose map of a tree: same nodes and cubes, empty leaves untouched, every non-empty leaf mapped by `GroupsMapped` |
| `Geometry.OffsetsAreCubeCorners` | octreelib/octree/octree.py:32-39 | each child corner offset has every coordinate in {0, edge/2}, and for a non-zero edge the eight offsets are pairwise distinct |
| `Geometry.ChildrenPartition` | octreelib/octree/octree.py:55-58 | for a positive edge, a point lies in child `i` exactly when it lies in the parent and `i` is its child index, so the routing loop without `break` hands it to one child at most |
| `OctreeProps.RouteCount` | octreelib/octree/octree.py:55-58 | routing to a box keeps every contained point with its multiplicity and drops every other point |
| `OctreeProps.RoutePartition` | octreelib/octree/octree.py:55-58 | over the eight children, a point value is routed as many times as it occurs if it lies in the parent, and never otherwise |
| `OctreeProps.NPointsIsLength` | octreelib/octree/octree.py:98-104 | `n_points` equals the length of `get_points` |
| `OctreeProps.PointsInBoxSelects` | octreelib/octree/octree.py:22-28 | for any (minimum, maximum) query box, `get_points_inside_box` is the subsequence of `get_points()` the box contains, in order |
| `OctreeProps.PointsInBoxOfCube` | octreelib/octree/octree.py:22-28 | querying with a cube's `bounding_box` returns exactly the stored points routing assigns to that cube |
| `OctreeProps.LeafNodePointsListsLeaves` | octreelib/octree/octree.py:79-82 | flattened, `get_leaf_node_points` equals the reference listing `LeafClouds(Leaves(t))`: its `i`-th cloud is the point list of the `i`-th leaf, there are `n_leafs` clouds, and they concatenate to `get_points` |
| `OctreeProps.LeavesCounted` | octreelib/octree/octree.py:88-92 | the left-to-right leaf listing has `n_leafs` entries |
| `OctreeProps.NNodesOfWellFormed` | octreelib/octree/octree.py:94-96 | `n_nodes` is 8 for an internal node and 0 for a leaf |
| `OctreeProps.InsertNothing` | octreelib/octree/octree.py:53-60 | inserting the empty cloud changes nothing |
| `OctreeProps.InsertAppend` | octreelib/octree/octree.py:55-58 | inserting point by point equals inserting the concatenated cloud at once |
| `OctreeProps.PointsCount` | octreelib/octree/octree.py:46-51 | a point value occurs in `get_points` of a node as often as in its children's together |
| `OctreeProps.InsertCount` | octreelib/octree/octree.py:53-60 | after insertion a point value occurs as often as before plus, at a leaf, its occurrences in the cloud; at an internal node, only if the node's cube contains it |
| `OctreeProps.InsertStores` | octreelib/octree/octree.py:53-60 | the stored multiset grows by the inserted cloud at a leaf and by its in-cube part at an internal node; points outside every child are dropped |
| `OctreeProps.InsertKeepsWellFormed` | octreelib/octree/octree.py:53-60 | insertion keeps every node a leaf or an eight-child node with the bisected cubes |
| `OctreeProps.InsertKeepsLocated` | octreelib/octree/octree.py:53-60 | if every stored point lies in its leaf and a leaf receives only points of its cube, that still holds after insertion |
| `OctreeProps.SplitKids` | octreelib/octree/octree.py:36-41 | the eight fresh children are leaves at the bisected cubes, each holding exactly the parent's points its cube contains |
| `OctreeProps.SubdivideSplitsOnAnyCriterion` | octreelib/octree/octree.py:30-40 | if any criterion holds on the node's points, the node becomes internal with no points of its own and eight children of edge `edge/2` at `corner + offset_i`; otherwise it is unchanged |
| `OctreeProps.SubdivideCount` | octreelib/octree/octree.py:41-44 | for located points, each point value occurs after subdivision as often as before |
| `OctreeProps.SubdivideConserves` | octreelib/octree/octree.py:41-42 | for located points, `get_points` after subdivision is a permutation of before and `n_points` is unchanged, on every call that does not raise `RecursionError` |
| `OctreeProps.SubdivideInternalDiscards` | octreelib/octree/octree.py:30-44 | an internal node whose criteria hold on the empty cloud ends, once the fuel bound cuts the recursion, as a subtree with no points; the source recurses without bound and raises `RecursionError` on this call |
| `OctreeProps.SubdivideEmptyLeaf` | octreelib/octree/octree.py:30-44 | subdividing an empty leaf yields a subtree with no points |
| `OctreeProps.SubdivideKeepsInvariants` | octreelib/octree/octree.py:30-44 | subdivision keeps the tree well formed and every stored point in its leaf's cube |
| `OctreeProps.FilterCount` | octreelib/octree/octree.py:62-70 | filtering never increases the occurrences of any point value |
| `OctreeProps.FilterNPoints` | octreelib/octree/octree.py:62-70 | filtering never increases `n_points` |
| `OctreeProps.FilterShrinks` | octreelib/octree/octree.py:62-70 | the points after filtering are a sub-multiset of those before |
| `OctreeProps.FilterIdempotent` | octreelib/octree/octree.py:62-70 | filtering twice with the same criteria equals filtering once |
| `OctreeProps.FilterCollapsesExactlyWhenEmpty` | octreelib/octree/octree.py:66-68 | a filtered internal node is a leaf if and only if it holds no points, and then it is an empty leaf over the same cube |
| `OctreeProps.FilterPrunes` | octreelib/octree/octree.py:62-70 | after filtering, no internal node has an empty subtree |
| `OctreeProps.FilterKeepsInvariants` | octreelib/octree/octree.py:62-70 | filtering keeps the tree well formed and every stored point in its leaf's cube |
| `OctreeProps.MapKeepsShape` | octreelib/octree/octree.py:72-77 | mapping the leaves keeps every node, cube and leaf/internal split, and the number of leaves |
| `OctreeProps.MapKeepsCount` | octreelib/octree/octree.py:72-77 | a length-preserving map keeps `n_points` |
| `OctreeProps.MapToSingletons` | octreelib/octree/octree.py:72-77 | with a map sending every non-empty cloud to one point, on a tree without empty leaves, `n_points == n_leafs` afterwards |
| `Octrees.OctreeNode.constructor` | octreelib/octree/octree_base.py:41-45 | a new node is a leaf with no points and no children, owning only itself, whose value is an empty leaf over its cube |
| `Octrees.OctreeNode.InsertPoints` | octreelib/octree/octree.py:53-60 | in place, the node's value becomes `Insert(old value, points)`; the footprint is unchanged |
| `Octrees.OctreeNode.InsertPoint` | octreelib/octree/octree.py:55-58 | one point is handed to every child whose cube contains it (a leaf appends it); the node's value becomes `Insert(old value, [p])` |
| `Octrees.OctreeNode.NewChildren` | octreelib/octree/octree.py:32-39 | eight fresh, distinct, empty leaves at the bisected cubes, in product order |
| `Octrees.OctreeNode.Split` | octreelib/octree/octree.py:36-42 | the node takes eight fresh children that receive its points, which it no longer stores; the value becomes `Split(old value)` |
| `Octrees.OctreeNode.Subdivide` | octreelib/octree/octree.py:30-44 | in place, the node's value becomes `Subdivide(old value, criteria)`; new objects are fresh |
| `Octrees.OctreeNode.SubdivideChildren` | octreelib/octree/octree.py:43-44 | every child is subdivided, one after the other, and the others are left alone |
| `Octrees.OctreeNode.Filter` | octreelib/octree/octree.py:62-70 | in place, the node's value becomes `Filter(old value, criteria)` |
| `Octrees.OctreeNode.MapLeafPoints` | octreelib/octree/octree.py:72-77 | in place, the node's value becomes `MapLeaves(old value, f)` |
| `Octrees.Octree.constructor` | octreelib/octree/octree_base.py:120-128 | the root is a fresh empty leaf covering exactly the octree's corner and edge length, and the config is stored |
| `Octrees.Octree.InsertPoints` | octreelib/octree/octree.py:119-120 | delegates to the root |
| `Octrees.Octree.Subdivide` | octreelib/octree/octree.py:113-114 | delegates to the root |
| `Octrees.Octree.Filter` | octreelib/octree/octree.py:122-123 | delegates to the root |
| `Octrees.Octree.MapLeafPoints` | octreelib/octree/octree.py:125-126 | delegates to the root |
| `Octrees.Octree.GetLeafNodePoints` | octreelib/octree/octree.py:128-129 | the nested leaf clouds: the `i`-th is the `i`-th leaf's point list, one per leaf, concatenating to the stored points |
| `Octrees.Octree.GetPoints` | octreelib/octree/octree.py:116-117 | the stored points are the leaf clouds one after the other |
| `Octrees.Octree.GetPointsInBox` | octreelib/octree/octree.py:110-111 | for a query box given by its minimum and maximum corners, the stored points it contains, in stored order |
| `Octrees.Octree.NPoints` | octreelib/octree/octree.py:131-133 | `n_points` is the length of `get_points` |
| `Octrees.Octree.NLeaves` | octreelib/octree/octree.py:135-137 | `n_leafs` is the number of clouds `get_leaf_node_points` yields |
| `Octrees.Octree.NNodes` | octreelib/octree/octree.py:139-141 | `n_nodes` is 8 when the root has children and 0 otherwise |
| `MultiPoseModel.ForPoseExact` | octreelib/octree/multi_pose_octree.py:24-30 | `_filter_by_pose_number(p, pts)` keeps every point of pose `p` with its multiplicity, only points of pose `p`, and distributes over concatenation (original order) |
| `MultiPoseModel.ForPoseEmptyIff` | octreelib/octree/multi_pose_octree.py:91-94 | the points of pose `p` are empty exactly when `p` is not among the cloud's poses |
| `MultiPoseModel.WithPoseRoundTrip` | octreelib/octree/multi_pose_octree.py:95-97 | tagging then stripping gives back the points; stripping a one-pose cloud then tagging gives it back |
| `MultiPoseModel.ForPoseOfTagged` | octreelib/octree/multi_pose_octree.py:95-98 | a cloud tagged with pose `p` is all of pose `p` and holds nothing of any other pose |
| `MultiPoseModel.AppendGroup` | octreelib/octree/multi_pose_octree.py:98 | appending a cloud tagged `p` adds it to pose `p` and leaves every other pose as it was |
| `MultiPoseModel.PointsForPoseProjects` | octreelib/octree/multi_pose_octree.py:65-79 | `get_points_for_pose(p)` is the pose-`p` part of all stored points, untagged, in order |
| `MultiPoseModel.NPointsForPoseIsLength` | octreelib/octree/multi_pose_octree.py:158-169 | `n_points_for_pose(p)` equals the length of `get_points_for_pose(p)` |
| `MultiPoseModel.NPointsForPoseOfPoints` | octreelib/octree/multi_pose_octree.py:165-168 | `n_points_for_pose(p)` is the number of stored points of pose `p` |
| `MultiPoseModel.NLeavesForPoseBounds` | octreelib/octree/multi_pose_octree.py:171-182 | `n_leaves_for_pose(p)` is at most the number of leaves and at most `n_points_for_pose(p)` |
| `MultiPoseModel.NNodesForPoseZeroIff` | octreelib/octree/multi_pose_octree.py:184-204 | `n_nodes_for_pose(p)` is 0 if and only if `n_points_for_pose(p)` is 0 |
| `MultiPoseModel.NLeavesForPoseAtMostNodes` | octreelib/octree/multi_pose_octree.py:189-198 | `n_leaves_for_pose(p) <= n_nodes_for_pose(p)` |
| `MultiPoseModel.LeafPointsForPoseMatches` | octreelib/octree/multi_pose_octree.py:39-63 | `get_leaf_points_for_pose(p)` yields exactly `n_leaves_for_pose(p)` voxels, none empty, whose points concatenate to `get_points_for_pose(p)` (the cubes are stated by `LeafPointsForPoseByLeaf`) |
| `MultiPoseModel.LeafPointsForPoseByLeaf` | octreelib/octree/multi_pose_octree.py:39-63 | `get_leaf_points_for_pose(p)` lists, leaf by leaf in order, one voxel for each leaf holding points of pose `p`, carrying that leaf's cube and its untagged pose-`p` points |
| `MultiPoseModel.InsertIgnoresPose` | octreelib/octree/multi_pose_octree.py:146-156 | restricting the tree to one pose commutes with insertion: restricting after inserting equals inserting that pose's points into the restricted tree |
| `MultiPoseModel.RouteStrips` | octreelib/octree/multi_pose_octree.py:139-142 | the tagged points a cube receives are, untagged, exactly the untagged points it receives |
| `MultiPoseModel.InsertStrips` | octreelib/octree/multi_pose_octree.py:134-144 | routing ignores the pose tag: inserting tagged points and then stripping the tags equals the plain octree's insertion of the untagged points into the stripped tree |
| `MultiPoseModel.InsertPointAsWrittenFails` | octreelib/octree/multi_pose_octree.py:139-142 | as written, `_insert_point` raises on every node with children, whereas the intended routing stores a point of the node's cube once more |
| `MultiPoseModel.LiftTestsStripped` | octreelib/octree/multi_pose_octree.py:107-112 | a criterion of the pose-tagged `subdivide` holds exactly when it holds on the untagged points |
| `MultiPoseModel.SubdivideConservesPoses` | octreelib/octree/multi_pose_octree.py:102-132 | for located points, subdivision keeps `n_points_for_pose(p)` for every pose `p` |
| `MultiPoseModel.GroupsMappedAddsNoPose` | octreelib/octree/multi_pose_octree.py:89-100 | the per-pose map introduces no pose absent before |
| `MultiPoseModel.MappedKeepsShape` | octreelib/octree/multi_pose_octree.py:81-88 | the per-pose map keeps every node, cube and leaf/internal split, and the number of leaves |
| `MultiPoseModel.MappedToSingletons` | octreelib/octree/multi_pose_octree.py:81-100 | with a map sending every non-empty cloud to one point, `n_points_for_pose(p) == n_leaves_for_pose(p)` afterwards |
| `MultiPoseOctrees.MapPoseGroups` | octreelib/octree/multi_pose_octree.py:90-100 | the loop over the pose set yields a cloud whose pose-`p` points are `f` of the old untagged pose-`p` points tagged `p`, for each pose present, and nothing of any other pose |
| `MultiPoseOctrees.GroupAdded` | octreelib/octree/multi_pose_octree.py:92-98 | one iteration of that loop keeps its invariant |
| `MultiPoseOctrees.MapLeafPointsByPose` | octreelib/octree/multi_pose_octree.py:81-100 | in place, internal nodes only recurse, empty leaves are untouched, and every non-empty leaf is mapped pose by pose |
| `MultiPoseOctrees.SubdividePoses` | octreelib/octree/multi_pose_octree.py:102-132 | the node's value becomes the plain subdivision with the criteria applied to untagged points |
| `MultiPoseOctrees.MultiPoseOctree.constructor` | octreelib/octree/multi_pose_octree.py:214-220 | the root is a fresh empty pose-tagged node, routed by untagged coordinates, covering the octree's corner and edge length |
| `MultiPoseOctrees.MultiPoseOctree.InsertPoints` | octreelib/octree/multi_pose_octree.py:146-156 | a leaf appends the cloud; an internal node routes point by point by untagged coordinates |
| `MultiPoseOctrees.MultiPoseOctree.Subdivide` | octreelib/octree/multi_pose_octree.py:102-112 | subdivision with criteria on untagged points |
| `MultiPoseOctrees.MultiPoseOctree.Filter` | octreelib/octree/octree.py:62-70 | the inherited filter, on pose-tagged clouds |
| `MultiPoseOctrees.MultiPoseOctree.MapLeafPoints` | octreelib/octree/multi_pose_octree.py:86-100 | the per-pose map of the whole tree |
| `MultiPoseOctrees.MultiPoseOctree.GetLeafNodePoints` | octreelib/octree/octree.py:128-129 | inherited: the nested tagged leaf clouds: the `i`-th is the `i`-th leaf's point list, one per leaf, concatenating to the stored points |
| `MultiPoseOctrees.MultiPoseOctree.GetPoints` | octreelib/octree/octree.py:116-117 | inherited: the tagged stored points are the leaf clouds one after the other |
| `MultiPoseOctrees.MultiPoseOctree.GetPointsInBox` | octreelib/octree/octree.py:110-111 | inherited: the stored points whose coordinates the (minimum, maximum) query box contains, in stored order |
| `MultiPoseOctrees.MultiPoseOctree.NPoints` | octreelib/octree/octree.py:131-133 | inherited: `n_points` over all poses is the length of `get_points` |
| `MultiPoseOctrees.MultiPoseOctree.NLeaves` | octreelib/octree/octree.py:135-137 | inherited: `n_leafs` is the number of clouds `get_leaf_node_points` yields |
| `MultiPoseOctrees.MultiPoseOctree.NNodes` | octreelib/octree/octree.py:139-141 | inherited: `n_nodes` is 8 when the root has children and 0 otherwise |
| `MultiPoseOctrees.MultiPoseOctree.GetPointsForPose` | octreelib/octree/multi_pose_octree.py:229-234 | the untagged stored points of pose `p`, in stored order |
| `MultiPoseOctrees.MultiPoseOctree.NPointsForPose` | octreelib/octree/multi_pose_octree.py:236-241 | the number of stored points of pose `p`, the length of `get_points_for_pose(p)` |
| `MultiPoseOctrees.MultiPoseOctree.GetLeafPointsForPose` | octreelib/octree/multi_pose_octree.py:222-227 | one voxel per leaf holding points of pose `p`, in leaf order, with that leaf's cube and its untagged pose-`p` points; none empty; together they hold `get_points_for_pose(p)` |
| `MultiPoseOctrees.MultiPoseOctree.NLeavesForPose` | octreelib/octree/multi_pose_octree.py:243-248 | the number of voxels of `get_leaf_points_for_pose(p)`, at most the leaves and at most `n_points_for_pose(p)` |
| `MultiPoseOctrees.MultiPoseOctree.NNodesForPose` | octreelib/octree/multi_pose_octree.py:250-255 | zero exactly when no point of pose `p` is stored, and at least `n_leaves_for_pose(p)` |

## Left out

- Floating point: coordinates are exact reals. numpy's `float_` rounding when halving edges and testing containment is not modelled.
- `point_is_inside_box` and `Box.is_point_inside` are not part of this model. Containment is the half-open predicate `Geometry.InsideRange` on a (minimum, maximum) pair of corners; `Geometry.Inside` applies it to a node's `bounding_box`.
- The point-cloud classes (`PointCloud`, `PosePointCloud`, `without_poses`, `with_pose`, `extend`, `StaticStoringVoxel`) are not part of this model. They become sequences, the functions `WithoutPoses` and `WithPose`, and the `Voxel` datatype.
- Octrees.OctreeNode.Subdivide: the recursion depth is bounded by a `fuel` argument. At fuel 0 a node is not split. The source has no bound: when a criterion keeps holding (it accepts the empty cloud, or counts points that are duplicated), it recurses until Python raises `RecursionError`.
- MultiPoseOctrees.MapPoseGroups: the poses are visited in an unspecified order, as Python set iteration is. So the contract states the result pose by pose (`GroupsMapped`), not the order of the groups in the new cloud.
- `Octree.get_leaf_node_points` returns the bound method without calling it, and `Octree.n_nodes` reads a non-existent `root.n_node`. The facade models the evidently intended delegation in both places, and `MultiPoseOctree`, which inherits both, does the same.
- `OctreeNode` and `Octree` leave abstract members of their bases unimplemented. The bases `OctreeNodeBase` (octreelib/octree/octree_base.py:57, 96) and `OctreeBase` (octreelib/octree/octree_base.py:140, 180) declare the abstract `n_leaves` and `get_leaf_points`. The subclasses define `n_leafs` and `get_leaf_node_points` instead (octreelib/octree/octree.py:79, 89, 128, 136). By Python's rules for abstract classes, `OctreeNode(...)` and `Octree(...)` therefore raise `TypeError`. So do `MultiPoseOctreeNode(...)` and `MultiPoseOctree(...)`, which add neither member. The constructors `Octrees.OctreeNode.constructor`, `Octrees.Octree.constructor` and `MultiPoseOctrees.MultiPoseOctree.constructor` model the evidently intended instantiation, and every query is named as the subclasses define it.
- The source mixes the attribute names `points`/`children`/`has_children` and `_points`/`_children`/`_has_children`. They are one set of fields here.
- The inherited `filter` empties a pose-tagged leaf with a plain list rather than an empty pose cloud. Both are the empty cloud here.
- The plain `insert_points` routes each point through its children in one nested loop. Here the inner loop is the method `InsertPoint`.
- The pose-tagged `_insert_point` and `insert_points` are modelled as evidently intended: the containment test on the child's cube uses the point without its tag, and the child receives a one-point cloud. As written, the code fails on any node with children (see "## Findings"); `MultiPoseModel.InsertPointAsWritten` models that.
- `subdivide` reinserts the node's points into the fresh children and then clears its own list. The model clears the list first. While the node has children, insertion never touches its own list, so the result is the same.
- The configuration's `debug` flag is stored but has no effect, as in the source.
- The grid layer (`octreelib/grid`), the k3d visualisation and file output lie outside the octree core.

## Findings

| source | as written | input that shows it | evidently intended | confidence | as-written member | corrected member |
|---|---|---|---|---|---|---|
| octreelib/octree/multi_pose_octree.py:139-142 | On a node with children, `_insert_point` calls `child.bounding_box.is_point_inside(...)`. The inherited `bounding_box` (octreelib/octree/octree.py:84-86) is a plain pair of corners, which has no such method. Line 142 also passes one bare point to `insert_points`, which expects a cloud. | Any pose-tagged node with children and any point. Subdividing a leaf that holds at least one point reaches this too, because `subdivide` re-inserts the points after setting `_has_children`. `InsertPointAsWrittenFails` proves the failure for every well-formed internal node. | The point goes to the child whose cube contains its untagged coordinates, as a one-point cloud, and is stored there once. | not executed; high (the failing attribute lookup is on the source's own return value) | `MultiPoseModel.InsertPointAsWritten`, shown by `MultiPoseModel.InsertPointAsWrittenFails` | `Octrees.OctreeNode.InsertPoint` (routing proved by `OctreeProps.InsertStores` and `MultiPoseModel.InsertStrips`) |
