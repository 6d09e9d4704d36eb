/** `MultiPoseOctreeNode` and the `MultiPoseOctree` facade. A pose-tagged node is an
    `OctreeNode<PosePoint>` whose routing projection is `Coords`: insertion is the plain one, and
    the operations the variant overrides (the per-pose `map_leaf_points`, `subdivide` on
    untagged points) and the per-pose queries are given here. */
module MultiPoseOctrees {
  import opened Geometry
  import opened Seqs
  import opened OctreeModel
  import opened MultiPoseModel
  import OctreeProps
  import Octrees

  /** The body of the per-pose `map_leaf_points` at a non-empty leaf: for every pose present
      in the cloud, in no particular order, the points of that pose are stripped of their tag,
      mapped by `f`, tagged again and appended to the new cloud. */
  method MapPoseGroups(pts: seq<PosePoint>, f: seq<Point> -> seq<Point>) returns (r: seq<PosePoint>)
    ensures GroupsMapped(pts, r, f)
  {
    r := [];
    var todo := Poses(pts);
    ghost var done: set<int> := {};
    while todo != {}
      invariant todo + done == Poses(pts) && todo !! done
      invariant forall m :: ForPose(m, r) == if m in done then MappedGroup(pts, f, m) else []
      decreases todo
    {
      var n :| n in todo;
      var group := ForPose(n, pts);
      if |group| != 0 {
        var mapped := WithPose(f(WithoutPoses(group)), n);
        GroupAdded(pts, f, r, done, n);
        r := r + mapped;
      } else {
        ForPoseEmptyIff(n, pts);
      }
      todo := todo - {n};
      done := done + {n};
    }
  }

  /** One step of `MapPoseGroups`: appending the mapped group of a pose not yet handled. */
  lemma GroupAdded(pts: seq<PosePoint>, f: seq<Point> -> seq<Point>, r: seq<PosePoint>, done: set<int>, n: int)
    requires n !in done
    requires forall m :: ForPose(m, r) == if m in done then MappedGroup(pts, f, m) else []
    ensures forall m :: ForPose(m, r + MappedGroup(pts, f, n)) ==
                        (if m in done + {n} then MappedGroup(pts, f, m) else [])
  {
    forall m ensures ForPose(m, r + MappedGroup(pts, f, n)) ==
      if m in done + {n} then MappedGroup(pts, f, m) else []
    {
      AppendGroup(r, f(WithoutPoses(ForPose(n, pts))), n, m);
    }
  }

  /** The per-pose `map_leaf_points`: a node with children maps each child in turn; a leaf
      with points replaces them pose group by pose group; an empty leaf is left alone. */
  method MapLeafPointsByPose(node: Octrees.OctreeNode<PosePoint>, f: seq<Point> -> seq<Point>)
    requires node.Valid()
    modifies node.Repr
    ensures node.Valid() && node.Repr == old(node.Repr)
    ensures MappedByPose(old(node.Model()), node.Model(), f)
    decreases node.Repr
  {
    if !node.hasChildren {
      ghost var before := node.points;
      if node.points != [] {
        var mapped := MapPoseGroups(node.points, f);
        node.points := mapped;
      }
      node.PointsUpdated();
      assert node.Model() == Leaf(node.Cube(), node.points);
      return;
    }
    ghost var m0 := node.Model();
    ghost var cs := node.children;
    for i := 0 to |node.children|
      invariant node.Valid() && node.Repr == old(node.Repr) && node.children == cs && node.hasChildren
      invariant forall j :: 0 <= j < i ==> MappedByPose(m0.kids[j], node.children[j].Model(), f)
      invariant forall j :: i <= j < |node.children| ==> node.children[j].Model() == m0.kids[j]
    {
      label Before:
      MapLeafPointsByPose(node.children[i], f);
      node.ChildUpdated@Before(i);
    }
    ghost var m1 := node.Model();
    assert forall j :: 0 <= j < |m1.kids| ==> MappedByPose(m0.kids[j], m1.kids[j], f);
  }

  /** The pose-tagged `subdivide`: the criteria see the node's points without their tags. */
  method SubdividePoses(node: Octrees.OctreeNode<PosePoint>, criteria: seq<seq<Point> -> bool>, fuel: nat)
    requires node.Valid()
    modifies node.Repr
    ensures node.Valid() && old(node.Repr) <= node.Repr && fresh(node.Repr - old(node.Repr))
    ensures node.Model() == OctreeModel.Subdivide(old(node.Model()), Lift(criteria), fuel, node.loc)
  {
    node.Subdivide(Lift(criteria), fuel);
  }

  /** `MultiPoseOctree`: an octree over pose-tagged points, routed by their coordinates. */
  class MultiPoseOctree {
    const config: Octrees.OctreeConfig
    const corner: Point
    const edgeLength: real
    const root: Octrees.OctreeNode<PosePoint>
    ghost var Repr: set<object>

    ghost predicate Valid()
      reads this, Repr
    {
      this in Repr && root in Repr && root.Repr <= Repr && this !in root.Repr && root.Valid() &&
      root.loc == Coords
    }

    /** The value of the whole octree: the value of its root. */
    function Model(): (t: Tree<PosePoint>)
      reads this, Repr
      requires Valid()
    {
      root.Model()
    }

    /** `OctreeBase.__init__` with `MultiPoseOctreeNode` as the node type. */
    constructor (config: Octrees.OctreeConfig, corner: Point, edgeLength: real)
      ensures Valid() && fresh(Repr)
      ensures this.config == config && this.corner == corner && this.edgeLength == edgeLength
      ensures Model() == Leaf(Box(corner, edgeLength), [])
    {
      this.config := config;
      this.corner := corner;
      this.edgeLength := edgeLength;
      var r := new Octrees.OctreeNode(corner, edgeLength, Coords);
      root := r;
      Repr := {this} + r.Repr;
    }

    method InsertPoints(pts: seq<PosePoint>)
      requires Valid()
      modifies Repr
      ensures Valid() && Repr == old(Repr)
      ensures Model() == Insert(old(Model()), pts, Coords)
    {
      root.InsertPoints(pts);
    }

    method Subdivide(criteria: seq<seq<Point> -> bool>, fuel: nat)
      requires Valid()
      modifies Repr
      ensures Valid() && old(Repr) <= Repr && fresh(Repr - old(Repr))
      ensures Model() == OctreeModel.Subdivide(old(Model()), Lift(criteria), fuel, Coords)
    {
      SubdividePoses(root, criteria, fuel);
      Repr := Repr + root.Repr;
    }

    method Filter(criteria: seq<seq<PosePoint> -> bool>)
      requires Valid()
      modifies Repr
      ensures Valid() && Repr == old(Repr)
      ensures Model() == OctreeModel.Filter(old(Model()), criteria)
    {
      root.Filter(criteria);
    }

    method MapLeafPoints(f: seq<Point> -> seq<Point>)
      requires Valid()
      modifies Repr
      ensures Valid() && Repr == old(Repr)
      ensures MappedByPose(old(Model()), Model(), f)
    {
      MapLeafPointsByPose(root, f);
    }

    /* The queries inherited from `Octree`, delegated to the root as there. */

    /** `get_leaf_node_points`: the `i`-th tagged cloud is the `i`-th leaf's point list; together
        they are every stored point in order. */
    function GetLeafNodePoints(): (r: Listing<PosePoint>)
      reads this, Repr
      requires Valid()
      ensures |Flatten(r)| == OctreeModel.NLeaves(Model())
      ensures Concat(Flatten(r)) == Points(Model())
      ensures |Flatten(r)| == |Leaves(Model())| &&
              forall i :: 0 <= i < |Leaves(Model())| ==> Flatten(r)[i] == Leaves(Model())[i].pts
    {
      OctreeProps.LeafNodePointsListsLeaves(Model());
      LeafNodePoints(Model())
    }

    /** `get_points`: the tagged leaf clouds one after the other. */
    function GetPoints(): (r: seq<PosePoint>)
      reads this, Repr
      requires Valid()
      ensures r == Concat(Flatten(GetLeafNodePoints()))
    {
      Points(Model())
    }

    /** `get_points_in_box`: the stored points whose coordinates the query box contains. */
    function GetPointsInBox(q: (Point, Point)): (r: seq<PosePoint>)
      reads this, Repr
      requires Valid()
      ensures r == Select(GetPoints(), InRange(q, Coords))
    {
      OctreeProps.PointsInBoxSelects(Model(), q, Coords);
      PointsInBox(Model(), q, Coords)
    }

    /** `n_points`: all poses together. */
    function NPoints(): (r: nat)
      reads this, Repr
      requires Valid()
      ensures r == |GetPoints()|
    {
      OctreeProps.NPointsIsLength(Model());
      OctreeModel.NPoints(Model())
    }

    /** `n_leafs`: every leaf counts one, empty or not. */
    function NLeaves(): (r: nat)
      reads this, Repr
      requires Valid()
      ensures r == |Flatten(GetLeafNodePoints())|
    {
      OctreeModel.NLeaves(Model())
    }

    /** `n_nodes`: eight when the root has children, zero when it is a leaf. */
    function NNodes(): (r: nat)
      reads this, Repr
      requires Valid()
      ensures r == if Model().Internal? then 8 else 0
    {
      OctreeModel.NNodes(Model())
    }

    /** `get_points_for_pose`: the untagged points of pose `n` the octree stores. */
    function GetPointsForPose(n: int): (r: seq<Point>)
      reads this, Repr
      requires Valid()
      ensures r == WithoutPoses(ForPose(n, Points(Model())))
    {
      PointsForPoseProjects(Model(), n);
      PointsForPose(Model(), n)
    }

    /** `n_points_for_pose` */
    function NPointsForPose(n: int): (r: nat)
      reads this, Repr
      requires Valid()
      ensures r == |GetPointsForPose(n)|
      ensures r == |ForPose(n, Points(Model()))|
    {
      NPointsForPoseIsLength(Model(), n);
      MultiPoseModel.NPointsForPose(Model(), n)
    }

    /** `get_leaf_points_for_pose`: one non-empty voxel per leaf holding points of pose `n`;
        together they hold exactly the points of that pose. */
    function GetLeafPointsForPose(n: int): (r: seq<Voxel>)
      reads this, Repr
      requires Valid()
      ensures r == LeafVoxels(Leaves(Model()), n)
      ensures forall i :: 0 <= i < |r| ==> r[i].pts != []
      ensures Concat(VoxelPoints(r)) == GetPointsForPose(n)
    {
      LeafPointsForPoseByLeaf(Model(), n);
      LeafPointsForPoseMatches(Model(), n);
      LeafPointsForPose(Model(), n)
    }

    /** `n_leaves_for_pose`: the number of voxels `get_leaf_points_for_pose` yields. */
    function NLeavesForPose(n: int): (r: nat)
      reads this, Repr
      requires Valid()
      ensures r == |GetLeafPointsForPose(n)|
      ensures r <= NLeaves() && r <= NPointsForPose(n)
    {
      LeafPointsForPoseMatches(Model(), n);
      NLeavesForPoseBounds(Model(), n);
      MultiPoseModel.NLeavesForPose(Model(), n)
    }

    /** `n_nodes_for_pose`: zero exactly when no point of pose `n` is stored, and never fewer
        than the leaves holding such points. */
    function NNodesForPose(n: int): (r: nat)
      reads this, Repr
      requires Valid()
      ensures r == 0 <==> NPointsForPose(n) == 0
      ensures NLeavesForPose(n) <= r
    {
      NNodesForPoseZeroIff(Model(), n);
      NLeavesForPoseAtMostNodes(Model(), n);
      MultiPoseModel.NNodesForPose(Model(), n)
    }
  }
}
