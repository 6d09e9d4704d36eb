/** The pose-tagged variant as values. Every stored point carries the number of the pose it
    was observed from; routing looks only at its coordinates, and the queries and counts
    become projections onto one pose. The tree is `Tree<PosePoint>` with `Coords` as its
    routing projection. */
module MultiPoseModel {
  import opened Geometry
  import opened Seqs
  import opened OctreeModel
  import OctreeProps

  /** A point together with its pose number (a row `x, y, z, pose` of a `PosePointCloud`). */
  datatype PosePoint = PosePoint(pos: Point, pose: int)

  /** A leaf voxel handed out by `get_leaf_points_for_pose`: a cube and untagged points. */
  datatype Voxel = Voxel(box: Box, pts: seq<Point>)

  /** The routing projection: the coordinates with the pose tag stripped. */
  function Coords(q: PosePoint): (r: Point)
  {
    q.pos
  }

  /** `without_poses` */
  function WithoutPoses(ps: seq<PosePoint>): (r: seq<Point>)
    ensures |r| == |ps|
  {
    seq(|ps|, i requires 0 <= i < |ps| => ps[i].pos)
  }

  /** `with_pose`: tags every point with pose `n`. */
  function WithPose(ps: seq<Point>, n: int): (r: seq<PosePoint>)
    ensures |r| == |ps|
  {
    seq(|ps|, i requires 0 <= i < |ps| => PosePoint(ps[i], n))
  }

  function HasPose(n: int): (r: PosePoint -> bool)
  {
    (q: PosePoint) => q.pose == n
  }

  /** `_filter_by_pose_number(n, ps)` */
  function ForPose(n: int, ps: seq<PosePoint>): (r: seq<PosePoint>)
  {
    Select(ps, HasPose(n))
  }

  /** `set(points.poses())` */
  function Poses(ps: seq<PosePoint>): (r: set<int>)
  {
    set i | 0 <= i < |ps| :: ps[i].pose
  }

  /** The subdivision criteria of the pose-tagged variant see the points without their tags. */
  function Lift(criteria: seq<seq<Point> -> bool>): (r: seq<seq<PosePoint> -> bool>)
    ensures |r| == |criteria|
  {
    seq(|criteria|, i requires 0 <= i < |criteria| => (ps: seq<PosePoint>) => criteria[i](WithoutPoses(ps)))
  }

  /* ---------------- per-pose queries ---------------- */

  /** `get_points_for_pose`: the untagged points of pose `n`, leaf by leaf. */
  function PointsForPose(t: Tree<PosePoint>, n: int): (r: seq<Point>)
  {
    match t
    case Leaf(_, ps) => WithoutPoses(ForPose(n, ps))
    case Internal(_, kids) => Concat(seq(|kids|, i requires 0 <= i < |kids| => PointsForPose(kids[i], n)))
  }

  /** `n_points_for_pose` */
  function NPointsForPose(t: Tree<PosePoint>, n: int): (r: nat)
  {
    match t
    case Leaf(_, ps) => |ForPose(n, ps)|
    case Internal(_, kids) => Sum(seq(|kids|, i requires 0 <= i < |kids| => NPointsForPose(kids[i], n)))
  }

  /** `n_leaves_for_pose`: a leaf counts one when it holds a point of pose `n`. */
  function NLeavesForPose(t: Tree<PosePoint>, n: int): (r: nat)
  {
    match t
    case Leaf(_, ps) => if |ForPose(n, ps)| != 0 then 1 else 0
    case Internal(_, kids) => Sum(seq(|kids|, i requires 0 <= i < |kids| => NLeavesForPose(kids[i], n)))
  }

  /** `n_nodes_for_pose`: a leaf as for `n_leaves_for_pose`; an internal node adds itself to
      its children's total when that total is non-zero. */
  function NNodesForPose(t: Tree<PosePoint>, n: int): (r: nat)
  {
    match t
    case Leaf(_, ps) => if |ForPose(n, ps)| != 0 then 1 else 0
    case Internal(_, kids) =>
      var s := Sum(seq(|kids|, i requires 0 <= i < |kids| => NNodesForPose(kids[i], n)));
      if s != 0 then s + 1 else 0
  }

  /** `get_leaf_points_for_pose`: one voxel per leaf holding points of pose `n`. */
  function LeafPointsForPose(t: Tree<PosePoint>, n: int): (r: seq<Voxel>)
  {
    match t
    case Leaf(b, ps) =>
      var fp := ForPose(n, ps);
      if |fp| != 0 then [Voxel(b, WithoutPoses(fp))] else []
    case Internal(_, kids) => Concat(seq(|kids|, i requires 0 <= i < |kids| => LeafPointsForPose(kids[i], n)))
  }

  /** The tree restricted to pose `n`: every leaf keeps only its points of that pose. */
  function OnlyPose(t: Tree<PosePoint>, n: int): (r: Tree<PosePoint>)
    ensures r.box == t.box && r.Leaf? == t.Leaf?
    ensures r.Internal? ==> |r.kids| == |t.kids|
  {
    match t
    case Leaf(b, ps) => Leaf(b, ForPose(n, ps))
    case Internal(b, kids) => Internal(b, seq(|kids|, i requires 0 <= i < |kids| => OnlyPose(kids[i], n)))
  }

  /** The voxels of a list of leaves for pose `n`: for each leaf holding points of that pose,
      in order, its cube and its untagged pose-`n` points. */
  function LeafVoxels(ls: seq<Tree<PosePoint>>, n: int): (r: seq<Voxel>)
  {
    if ls == [] then []
    else
      (if ls[0].Leaf? && ForPose(n, ls[0].pts) != [] then [Voxel(ls[0].box, WithoutPoses(ForPose(n, ls[0].pts)))] else [])
      + LeafVoxels(ls[1..], n)
  }

  /** The tree with every stored point stripped of its pose tag: a plain octree. */
  function Strip(t: Tree<PosePoint>): (r: Tree<Point>)
    ensures r.box == t.box && r.Leaf? == t.Leaf?
    ensures r.Internal? ==> |r.kids| == |t.kids|
  {
    match t
    case Leaf(b, ps) => Leaf(b, WithoutPoses(ps))
    case Internal(b, kids) => Internal(b, seq(|kids|, i requires 0 <= i < |kids| => Strip(kids[i])))
  }

  /** The routing projection of the plain octree: an untagged point routes by itself. */
  function Untagged(q: Point): (r: Point)
  {
    q
  }

  /* ---------------- `_insert_point` as written ---------------- */

  /** What a call of the pose-tagged `_insert_point` ends in, as the code is written. */
  datatype InsertOutcome = Inserted(tree: Tree<PosePoint>) | AttributeError

  /** `_insert_point` as written: a leaf appends the point; a node with children asks each
      child's `bounding_box` for `is_point_inside`, but the inherited `bounding_box` is a plain
      pair of corners, which has no such method, so the first child raises. */
  function InsertPointAsWritten(t: Tree<PosePoint>, p: PosePoint): (r: InsertOutcome)
  {
    match t
    case Leaf(b, ps) => Inserted(Leaf(b, ps + [p]))
    case Internal(_, kids) => if kids == [] then Inserted(t) else AttributeError
  }

  /* ---------------- per-pose map ---------------- */

  /** What the per-pose `map_leaf_points` makes of a non-empty cloud: for every pose present,
      the points of that pose are `f` of its untagged points, tagged again; no other pose. */
  ghost predicate GroupsMapped(before: seq<PosePoint>, after: seq<PosePoint>, f: seq<Point> -> seq<Point>)
  {
    forall n :: ForPose(n, after) == if n in Poses(before) then MappedGroup(before, f, n) else []
  }

  /** The points of pose `n` stripped of their tag, mapped by `f` and tagged again. */
  function MappedGroup(ps: seq<PosePoint>, f: seq<Point> -> seq<Point>, n: int): (r: seq<PosePoint>)
  {
    WithPose(f(WithoutPoses(ForPose(n, ps))), n)
  }

  /** The per-pose `map_leaf_points` relates `s` to `t`: same nodes and cubes, empty leaves
      untouched, every non-empty leaf mapped pose by pose. */
  ghost predicate MappedByPose(s: Tree<PosePoint>, t: Tree<PosePoint>, f: seq<Point> -> seq<Point>)
  {
    s.box == t.box && s.Leaf? == t.Leaf? &&
    (s.Leaf? ==> if s.pts == [] then t.pts == [] else GroupsMapped(s.pts, t.pts, f)) &&
    (s.Internal? ==> |s.kids| == |t.kids|) &&
    (s.Internal? ==> forall i :: 0 <= i < |s.kids| ==> MappedByPose(s.kids[i], t.kids[i], f))
  }

  /* ================= lemmas ================= */

  /** Tagging then stripping gives back the points; stripping then tagging with the common
      pose gives back a cloud of one pose. */
  lemma WithPoseRoundTrip(ps: seq<Point>, qs: seq<PosePoint>, n: int)
    ensures WithoutPoses(WithPose(ps, n)) == ps
    ensures (forall i :: 0 <= i < |qs| ==> qs[i].pose == n) ==> WithPose(WithoutPoses(qs), n) == qs
  {
    assert forall i :: 0 <= i < |ps| ==> WithoutPoses(WithPose(ps, n))[i] == ps[i];
    if forall i :: 0 <= i < |qs| ==> qs[i].pose == n {
      assert forall i :: 0 <= i < |qs| ==> WithPose(WithoutPoses(qs), n)[i] == qs[i];
    }
  }

  /** `_filter_by_pose_number` keeps every point of pose `n` with its multiplicity, drops every
      other point, and distributes over concatenation, so it keeps the original order. */
  lemma ForPoseExact(n: int, a: seq<PosePoint>, b: seq<PosePoint>, x: PosePoint)
    ensures multiset(ForPose(n, a))[x] == if x.pose == n then multiset(a)[x] else 0
    ensures forall i :: 0 <= i < |ForPose(n, a)| ==> ForPose(n, a)[i].pose == n
    ensures ForPose(n, a + b) == ForPose(n, a) + ForPose(n, b)
  {
    SelectCount(a, HasPose(n), x);
    SelectAppend(a, b, HasPose(n));
  }

  /** A cloud has points of pose `n` exactly when `n` is among its poses. */
  lemma ForPoseEmptyIff(n: int, ps: seq<PosePoint>)
    ensures ForPose(n, ps) == [] <==> n !in Poses(ps)
  {
    var r := ForPose(n, ps);
    if n in Poses(ps) {
      var i :| 0 <= i < |ps| && ps[i].pose == n;
      assert HasPose(n)(ps[i]);
      assert ps[i] in r;
    }
    if r != [] {
      assert r[0] in ps && HasPose(n)(r[0]);
      var i :| 0 <= i < |ps| && ps[i] == r[0];
      assert ps[i].pose in Poses(ps);
    }
  }

  /** A cloud tagged with pose `n` has all its points in pose `n` and none in any other. */
  lemma ForPoseOfTagged(ps: seq<Point>, n: int, m: int)
    ensures ForPose(m, WithPose(ps, n)) == if m == n then WithPose(ps, n) else []
  {
    var w := WithPose(ps, n);
    if m == n {
      SelectAll(w, HasPose(m));
    } else {
      SelectNone(w, HasPose(m));
    }
  }

  /** Appending a cloud tagged with pose `n` adds to pose `n` and leaves every other pose as
      it was. */
  lemma AppendGroup(r: seq<PosePoint>, ps: seq<Point>, n: int, m: int)
    ensures ForPose(m, r + WithPose(ps, n)) == ForPose(m, r) + if m == n then WithPose(ps, n) else []
  {
    SelectAppend(r, WithPose(ps, n), HasPose(m));
    ForPoseOfTagged(ps, n, m);
  }

  /** Stripping the tags commutes with concatenation. */
  lemma {:induction false} WithoutPosesConcat(ss: seq<seq<PosePoint>>)
    ensures WithoutPoses(Concat(ss)) == Concat(seq(|ss|, i requires 0 <= i < |ss| => WithoutPoses(ss[i])))
  {
    if ss != [] {
      WithoutPosesConcat(ss[1..]);
      assert WithoutPoses(ss[0] + Concat(ss[1..])) == WithoutPoses(ss[0]) + WithoutPoses(Concat(ss[1..]));
      assert seq(|ss|, i requires 0 <= i < |ss| => WithoutPoses(ss[i]))[1..]
          == seq(|ss[1..]|, i requires 0 <= i < |ss[1..]| => WithoutPoses(ss[1..][i]));
    }
  }

  /** `get_points_for_pose` is the pose-`n` part of `get_points`, untagged. */
  lemma {:induction false} PointsForPoseProjects(t: Tree<PosePoint>, n: int)
    ensures PointsForPose(t, n) == WithoutPoses(ForPose(n, Points(t)))
  {
    match t
    case Leaf(_, _) =>
    case Internal(_, kids) =>
      var pts := seq(|kids|, i requires 0 <= i < |kids| => Points(kids[i]));
      var sel := seq(|kids|, i requires 0 <= i < |kids| => ForPose(n, pts[i]));
      assert Points(t) == Concat(pts);
      SelectConcat(pts, HasPose(n));
      assert seq(|pts|, i requires 0 <= i < |pts| => Select(pts[i], HasPose(n))) == sel;
      assert ForPose(n, Points(t)) == Concat(sel);
      WithoutPosesConcat(sel);
      forall i | 0 <= i < |kids| ensures PointsForPose(kids[i], n) == WithoutPoses(sel[i]) {
        PointsForPoseProjects(kids[i], n);
      }
      assert seq(|kids|, i requires 0 <= i < |kids| => PointsForPose(kids[i], n))
          == seq(|sel|, i requires 0 <= i < |sel| => WithoutPoses(sel[i]));
  }

  /** `n_points_for_pose` is the length of `get_points_for_pose`. */
  lemma {:induction false} NPointsForPoseIsLength(t: Tree<PosePoint>, n: int)
    ensures NPointsForPose(t, n) == |PointsForPose(t, n)|
  {
    match t
    case Leaf(_, _) =>
    case Internal(_, kids) =>
      var ps := seq(|kids|, i requires 0 <= i < |kids| => PointsForPose(kids[i], n));
      ConcatLength(ps);
      forall i | 0 <= i < |kids| ensures NPointsForPose(kids[i], n) == |ps[i]| {
        NPointsForPoseIsLength(kids[i], n);
      }
      assert seq(|kids|, i requires 0 <= i < |kids| => NPointsForPose(kids[i], n))
          == seq(|ps|, i requires 0 <= i < |ps| => |ps[i]|);
  }

  /** `n_leaves_for_pose` counts only leaves holding a point of pose `n`: at most every leaf,
      and at most one per such point. */
  lemma {:induction false} NLeavesForPoseBounds(t: Tree<PosePoint>, n: int)
    ensures NLeavesForPose(t, n) <= NLeaves(t)
    ensures NLeavesForPose(t, n) <= NPointsForPose(t, n)
  {
    match t
    case Leaf(_, _) =>
    case Internal(_, kids) =>
      forall i | 0 <= i < |kids|
        ensures NLeavesForPose(kids[i], n) <= NLeaves(kids[i])
        ensures NLeavesForPose(kids[i], n) <= NPointsForPose(kids[i], n)
      {
        NLeavesForPoseBounds(kids[i], n);
      }
      var ls := seq(|kids|, i requires 0 <= i < |kids| => NLeavesForPose(kids[i], n));
      SumMono(ls, seq(|kids|, i requires 0 <= i < |kids| => NLeaves(kids[i])));
      SumMono(ls, seq(|kids|, i requires 0 <= i < |kids| => NPointsForPose(kids[i], n)));
  }

  /** `n_nodes_for_pose` is zero exactly when the subtree holds no point of pose `n`. */
  lemma {:induction false} NNodesForPoseZeroIff(t: Tree<PosePoint>, n: int)
    ensures NNodesForPose(t, n) == 0 <==> NPointsForPose(t, n) == 0
  {
    match t
    case Leaf(_, _) =>
    case Internal(_, kids) =>
      forall i | 0 <= i < |kids| ensures NNodesForPose(kids[i], n) == 0 <==> NPointsForPose(kids[i], n) == 0 {
        NNodesForPoseZeroIff(kids[i], n);
      }
      var nodes := seq(|kids|, i requires 0 <= i < |kids| => NNodesForPose(kids[i], n));
      var pts := seq(|kids|, i requires 0 <= i < |kids| => NPointsForPose(kids[i], n));
      SumZero(nodes);
      SumZero(pts);
      forall i | 0 <= i < |kids| ensures nodes[i] == 0 <==> pts[i] == 0 {
        assert nodes[i] == NNodesForPose(kids[i], n) && pts[i] == NPointsForPose(kids[i], n);
      }
      assert NPointsForPose(t, n) == Sum(pts);
      assert NNodesForPose(t, n) == 0 <==> Sum(nodes) == 0;
  }

  /** Every leaf that `n_leaves_for_pose` counts is also counted by `n_nodes_for_pose`. */
  lemma {:induction false} NLeavesForPoseAtMostNodes(t: Tree<PosePoint>, n: int)
    ensures NLeavesForPose(t, n) <= NNodesForPose(t, n)
  {
    match t
    case Leaf(_, _) =>
    case Internal(_, kids) =>
      forall i | 0 <= i < |kids| ensures NLeavesForPose(kids[i], n) <= NNodesForPose(kids[i], n) {
        NLeavesForPoseAtMostNodes(kids[i], n);
      }
      SumMono(seq(|kids|, i requires 0 <= i < |kids| => NLeavesForPose(kids[i], n)),
              seq(|kids|, i requires 0 <= i < |kids| => NNodesForPose(kids[i], n)));
  }

  /** `get_leaf_points_for_pose` yields one voxel per leaf that `n_leaves_for_pose` counts, no
      voxel is empty, and together the voxels hold exactly `get_points_for_pose`. */
  lemma {:induction false} LeafPointsForPoseMatches(t: Tree<PosePoint>, n: int)
    ensures |LeafPointsForPose(t, n)| == NLeavesForPose(t, n)
    ensures forall i :: 0 <= i < |LeafPointsForPose(t, n)| ==> LeafPointsForPose(t, n)[i].pts != []
    ensures Concat(VoxelPoints(LeafPointsForPose(t, n))) == PointsForPose(t, n)
  {
    match t
    case Leaf(_, _) =>
      if |LeafPointsForPose(t, n)| != 0 {
        assert VoxelPoints(LeafPointsForPose(t, n)) == [PointsForPose(t, n)];
      }
    case Internal(_, kids) =>
      var vs := seq(|kids|, i requires 0 <= i < |kids| => LeafPointsForPose(kids[i], n));
      forall i | 0 <= i < |kids|
        ensures |vs[i]| == NLeavesForPose(kids[i], n)
        ensures forall j :: 0 <= j < |LeafPointsForPose(kids[i], n)| ==> LeafPointsForPose(kids[i], n)[j].pts != []
        ensures Concat(VoxelPoints(vs[i])) == PointsForPose(kids[i], n)
      {
        LeafPointsForPoseMatches(kids[i], n);
      }
      ConcatLength(vs);
      assert seq(|vs|, i requires 0 <= i < |vs| => |vs[i]|)
          == seq(|kids|, i requires 0 <= i < |kids| => NLeavesForPose(kids[i], n));
      VoxelsOfConcat(vs);
      var pieces := seq(|vs|, i requires 0 <= i < |vs| => VoxelPoints(vs[i]));
      ConcatConcat(pieces);
      assert seq(|pieces|, i requires 0 <= i < |pieces| => Concat(pieces[i]))
          == seq(|kids|, i requires 0 <= i < |kids| => PointsForPose(kids[i], n));
  }

  /** The point lists of a sequence of voxels. */
  function VoxelPoints(vs: seq<Voxel>): (r: seq<seq<Point>>)
    ensures |r| == |vs|
  {
    seq(|vs|, i requires 0 <= i < |vs| => vs[i].pts)
  }

  /** The point lists of concatenated voxel lists, and their emptiness. */
  lemma {:induction false} VoxelsOfConcat(vss: seq<seq<Voxel>>)
    ensures VoxelPoints(Concat(vss)) == Concat(seq(|vss|, i requires 0 <= i < |vss| => VoxelPoints(vss[i])))
    ensures (forall i, j :: 0 <= i < |vss| && 0 <= j < |vss[i]| ==> vss[i][j].pts != []) ==>
      forall k :: 0 <= k < |Concat(vss)| ==> Concat(vss)[k].pts != []
  {
    if vss != [] {
      VoxelsOfConcat(vss[1..]);
      assert VoxelPoints(vss[0] + Concat(vss[1..])) == VoxelPoints(vss[0]) + VoxelPoints(Concat(vss[1..]));
      assert seq(|vss|, i requires 0 <= i < |vss| => VoxelPoints(vss[i]))[1..]
          == seq(|vss[1..]|, i requires 0 <= i < |vss[1..]| => VoxelPoints(vss[1..][i]));
      if forall i, j :: 0 <= i < |vss| && 0 <= j < |vss[i]| ==> vss[i][j].pts != [] {
        assert forall i, j :: 0 <= i < |vss[1..]| && 0 <= j < |vss[1..][i]| ==> vss[1..][i][j].pts != [];
        forall k | 0 <= k < |Concat(vss)| ensures Concat(vss)[k].pts != [] {
          if k >= |vss[0]| {
            assert Concat(vss)[k] == Concat(vss[1..])[k - |vss[0]|];
          }
        }
      }
    }
  }

  /** Routing ignores the pose: restricting to pose `n` after inserting is inserting the
      pose-`n` points into the restricted tree. */
  lemma {:induction false} InsertIgnoresPose(t: Tree<PosePoint>, pts: seq<PosePoint>, n: int)
    ensures OnlyPose(Insert(t, pts, Coords), n) == Insert(OnlyPose(t, n), ForPose(n, pts), Coords)
  {
    match t
    case Leaf(_, ps) =>
      SelectAppend(ps, pts, HasPose(n));
    case Internal(b, kids) =>
      var l := OnlyPose(Insert(t, pts, Coords), n);
      var r := Insert(OnlyPose(t, n), ForPose(n, pts), Coords);
      OctreeProps.InsertKids(t, pts, Coords);
      OctreeProps.InsertKids(OnlyPose(t, n), ForPose(n, pts), Coords);
      forall i | 0 <= i < |kids| ensures l.kids[i] == r.kids[i] {
        var routed := Route(pts, kids[i].box, Coords);
        InsertIgnoresPose(kids[i], routed, n);
        SelectCommute(pts, InBox(kids[i].box, Coords), HasPose(n));
      }
      assert l.kids == r.kids;
  }

  /** Stripping the tags commutes with routing: the tagged points a box receives are, untagged,
      the untagged points it receives. */
  lemma {:induction false} RouteStrips(pts: seq<PosePoint>, b: Box)
    ensures WithoutPoses(Route(pts, b, Coords)) == Route(WithoutPoses(pts), b, Untagged)
  {
    if pts != [] {
      RouteStrips(pts[1..], b);
      assert WithoutPoses(pts)[1..] == WithoutPoses(pts[1..]);
      var head := if InBox(b, Coords)(pts[0]) then [pts[0]] else [];
      assert Route(pts, b, Coords) == head + Route(pts[1..], b, Coords);
      assert WithoutPoses(head + Route(pts[1..], b, Coords))
          == WithoutPoses(head) + WithoutPoses(Route(pts[1..], b, Coords));
      var u := WithoutPoses(pts);
      assert InBox(b, Untagged)(u[0]) == Inside(Untagged(u[0]), b);
      assert InBox(b, Coords)(pts[0]) == Inside(Coords(pts[0]), b);
      assert Untagged(u[0]) == Coords(pts[0]);
      assert Route(u, b, Untagged) == (if InBox(b, Untagged)(u[0]) then [u[0]] else []) + Route(u[1..], b, Untagged);
    } else {
      assert WithoutPoses(pts) == [];
    }
  }

  /** Routing ignores the pose tag: inserting tagged points and then stripping the tags gives
      the plain octree's insertion of the untagged points into the stripped tree. */
  lemma {:induction false} InsertStrips(t: Tree<PosePoint>, pts: seq<PosePoint>)
    ensures Strip(Insert(t, pts, Coords)) == Insert(Strip(t), WithoutPoses(pts), Untagged)
  {
    match t
    case Leaf(_, ps) =>
      assert WithoutPoses(ps + pts) == WithoutPoses(ps) + WithoutPoses(pts);
    case Internal(b, kids) =>
      var l := Strip(Insert(t, pts, Coords));
      var r := Insert(Strip(t), WithoutPoses(pts), Untagged);
      OctreeProps.InsertKids(t, pts, Coords);
      OctreeProps.InsertKids(Strip(t), WithoutPoses(pts), Untagged);
      forall i | 0 <= i < |kids| ensures l.kids[i] == r.kids[i] {
        InsertStrips(kids[i], Route(pts, kids[i].box, Coords));
        RouteStrips(pts, kids[i].box);
      }
      assert l.kids == r.kids;
  }

  /** As written, `_insert_point` fails on every node with children, where the evidently
      intended routing stores a point of the node's cube exactly once more. */
  lemma InsertPointAsWrittenFails(t: Tree<PosePoint>, p: PosePoint)
    requires WellFormed(t) && t.Internal?
    ensures InsertPointAsWritten(t, p) == AttributeError
    ensures Inside(Coords(p), t.box) ==>
      multiset(Points(Insert(t, [p], Coords)))[p] == multiset(Points(t))[p] + 1
  {
    OctreeProps.InsertCount(t, [p], Coords, p);
    if Inside(Coords(p), t.box) {
      assert InBox(t.box, Coords)(p);
      assert Route([p], t.box, Coords) == [p];
    }
  }

  /** `get_leaf_points_for_pose` visits the leaves in order and yields, for each leaf holding
      points of pose `n`, its cube and those points untagged. */
  lemma {:induction false} LeafPointsForPoseByLeaf(t: Tree<PosePoint>, n: int)
    ensures LeafPointsForPose(t, n) == LeafVoxels(Leaves(t), n)
  {
    match t
    case Leaf(_, _) =>
      assert Leaves(t)[1..] == [];
    case Internal(_, kids) =>
      var ls := seq(|kids|, i requires 0 <= i < |kids| => Leaves(kids[i]));
      LeafVoxelsConcat(ls, n);
      forall i | 0 <= i < |kids| ensures LeafPointsForPose(kids[i], n) == LeafVoxels(ls[i], n) {
        LeafPointsForPoseByLeaf(kids[i], n);
      }
      assert seq(|ls|, i requires 0 <= i < |ls| => LeafVoxels(ls[i], n))
          == seq(|kids|, i requires 0 <= i < |kids| => LeafPointsForPose(kids[i], n));
  }

  lemma {:induction false} LeafVoxelsAppend(a: seq<Tree<PosePoint>>, b: seq<Tree<PosePoint>>, n: int)
    ensures LeafVoxels(a + b, n) == LeafVoxels(a, n) + LeafVoxels(b, n)
  {
    if a == [] {
      assert a + b == b;
    } else {
      assert (a + b)[1..] == a[1..] + b;
      LeafVoxelsAppend(a[1..], b, n);
    }
  }

  lemma {:induction false} LeafVoxelsConcat(ss: seq<seq<Tree<PosePoint>>>, n: int)
    ensures LeafVoxels(Concat(ss), n) == Concat(seq(|ss|, i requires 0 <= i < |ss| => LeafVoxels(ss[i], n)))
  {
    if ss != [] {
      LeafVoxelsAppend(ss[0], Concat(ss[1..]), n);
      LeafVoxelsConcat(ss[1..], n);
      assert seq(|ss|, i requires 0 <= i < |ss| => LeafVoxels(ss[i], n))[1..]
          == seq(|ss[1..]|, i requires 0 <= i < |ss[1..]| => LeafVoxels(ss[1..][i], n));
    }
  }

  /** The lifted criteria test the points without their tags. */
  lemma LiftTestsStripped(criteria: seq<seq<Point> -> bool>, ps: seq<PosePoint>)
    ensures AnyHolds(Lift(criteria), ps) <==> AnyHolds(criteria, WithoutPoses(ps))
  {
    if AnyHolds(criteria, WithoutPoses(ps)) {
      var i :| 0 <= i < |criteria| && criteria[i](WithoutPoses(ps));
      assert Lift(criteria)[i](ps);
    }
  }

  /** `n_points_for_pose` is the number of stored points of pose `n`. */
  lemma NPointsForPoseOfPoints(t: Tree<PosePoint>, n: int)
    ensures NPointsForPose(t, n) == |ForPose(n, Points(t))|
  {
    NPointsForPoseIsLength(t, n);
    PointsForPoseProjects(t, n);
  }

  /** Subdividing with the lifted criteria keeps the number of points of every pose, provided
      every point lies in its leaf and an internal node does not split on an empty cloud. */
  lemma SubdivideConservesPoses(t: Tree<PosePoint>, criteria: seq<seq<Point> -> bool>, fuel: nat, n: int)
    requires WellFormed(t) && Located(t, Coords)
    requires t.Leaf? || !AnyHolds(criteria, [])
    ensures NPointsForPose(OctreeModel.Subdivide(t, Lift(criteria), fuel, Coords), n) == NPointsForPose(t, n)
  {
    LiftTestsStripped(criteria, []);
    assert WithoutPoses([]) == [];
    var r := OctreeModel.Subdivide(t, Lift(criteria), fuel, Coords);
    OctreeProps.SubdivideConserves(t, Lift(criteria), fuel, Coords);
    NPointsForPoseOfPoints(t, n);
    NPointsForPoseOfPoints(r, n);
    SelectLength(Points(r), Points(t), HasPose(n));
  }

  /** The per-pose map adds no pose that was not there before. */
  lemma GroupsMappedAddsNoPose(before: seq<PosePoint>, after: seq<PosePoint>, f: seq<Point> -> seq<Point>)
    requires GroupsMapped(before, after, f)
    ensures Poses(after) <= Poses(before)
  {
    forall m | m in Poses(after) ensures m in Poses(before) {
      ForPoseEmptyIff(m, after);
      assert ForPose(m, after) != [];
    }
  }

  /** The per-pose map keeps every node, its cube and whether it is a leaf, so the number of
      leaves too. */
  lemma {:induction false} MappedKeepsShape(s: Tree<PosePoint>, t: Tree<PosePoint>, f: seq<Point> -> seq<Point>)
    requires MappedByPose(s, t, f)
    ensures SameShape(s, t) && NLeaves(t) == NLeaves(s)
  {
    match s
    case Leaf(_, _) =>
    case Internal(_, kids) =>
      forall i | 0 <= i < |kids| ensures SameShape(kids[i], t.kids[i]) && NLeaves(t.kids[i]) == NLeaves(kids[i]) {
        MappedKeepsShape(kids[i], t.kids[i], f);
      }
      assert seq(|t.kids|, i requires 0 <= i < |t.kids| => NLeaves(t.kids[i]))
          == seq(|kids|, i requires 0 <= i < |kids| => NLeaves(kids[i]));
  }

  /** With a map that turns every non-empty cloud into one point, every leaf ends with exactly
      one point of each pose it holds, so points and leaves of every pose are equally many. */
  lemma {:induction false} MappedToSingletons(s: Tree<PosePoint>, t: Tree<PosePoint>, f: seq<Point> -> seq<Point>, n: int)
    requires forall c: seq<Point> :: c != [] ==> |f(c)| == 1
    requires MappedByPose(s, t, f)
    ensures NPointsForPose(t, n) == NLeavesForPose(t, n)
  {
    match s
    case Leaf(_, ps) =>
      if ps != [] {
        assert ForPose(n, t.pts) == if n in Poses(ps) then MappedGroup(ps, f, n) else [];
        ForPoseEmptyIff(n, ps);
      }
    case Internal(_, kids) =>
      forall i | 0 <= i < |kids| ensures NPointsForPose(t.kids[i], n) == NLeavesForPose(t.kids[i], n) {
        MappedToSingletons(kids[i], t.kids[i], f, n);
      }
      assert seq(|t.kids|, i requires 0 <= i < |t.kids| => NPointsForPose(t.kids[i], n))
          == seq(|t.kids|, i requires 0 <= i < |t.kids| => NLeavesForPose(t.kids[i], n));
  }
}
