/** `OctreeNode` and the `Octree` facade as heap objects. Each node owns its point list, its list
    of children and its `has_children` flag, and every method updates them in place. `Model()`
    reads the value of a node off the heap, and every method is proved to turn `Model()` into
    the corresponding function of `OctreeModel` applied to the old value. */
module Octrees {
  import opened Geometry
  import opened Seqs
  import opened OctreeModel
  import OctreeProps

  class OctreeNode<P> {
    const corner: Point
    const edgeLength: real
    /** The coordinates that decide routing of a stored point. */
    const loc: P -> Point
    var points: seq<P>
    var children: seq<OctreeNode<P>>
    var hasChildren: bool
    ghost var Repr: set<object>

    /** The node's cube: `corner` up to `corner + edge_length` on every axis. */
    function Cube(): (b: Box)
    {
      Box(corner, edgeLength)
    }

    /** The object invariant: a node with children has eight of them and keeps no points of its
        own; a node without children has an empty children list. The children own disjoint parts
        of the heap below this node and share its routing projection. */
    ghost predicate Valid()
      reads this, Repr
      decreases Repr
    {
      this in Repr &&
      (hasChildren ==> |children| == 8 && points == []) &&
      (!hasChildren ==> children == []) &&
      (forall i :: 0 <= i < |children| ==>
        children[i] in Repr && children[i].Repr <= Repr && this !in children[i].Repr &&
        children[i].loc == loc && children[i].Valid()) &&
      (forall i, j :: 0 <= i < j < |children| ==> children[i].Repr !! children[j].Repr)
    }

    /** The value of the subtree rooted at this node. */
    function Model(): (t: Tree<P>)
      reads this, Repr
      requires Valid()
      ensures t.box == Cube()
      ensures t.Leaf? <==> !hasChildren
      ensures t.Leaf? ==> t.pts == points
      ensures t.Internal? ==> |t.kids| == |children|
      ensures t.Internal? ==> forall i {:trigger t.kids[i]} :: 0 <= i < |children| ==> t.kids[i] == children[i].Model()
      decreases Repr, 1
    {
      if hasChildren then Internal(Cube(), ChildModels(|children|)) else Leaf(Cube(), points)
    }

    /** The values of the first `n` children. */
    function ChildModels(n: nat): (ms: seq<Tree<P>>)
      reads this, Repr
      requires Valid() && n <= |children|
      ensures |ms| == n && forall i {:trigger ms[i]} :: 0 <= i < n ==> ms[i] == children[i].Model()
      decreases Repr, 0, n
    {
      if n == 0 then [] else ChildModels(n - 1) + [children[n - 1].Model()]
    }

    /** `OctreeNodeBase.__init__`: a new node is a leaf with no points and no children. */
    constructor (corner: Point, edgeLength: real, loc: P -> Point)
      ensures Valid() && Repr == {this}
      ensures this.corner == corner && this.edgeLength == edgeLength && this.loc == loc
      ensures points == [] && children == [] && !hasChildren
      ensures Model() == Leaf(Box(corner, edgeLength), [])
    {
      this.corner := corner;
      this.edgeLength := edgeLength;
      this.loc := loc;
      points := [];
      children := [];
      hasChildren := false;
      Repr := {this};
    }

    /** Frame reasoning shared by the methods that walk the children: when a call changed only
        the objects owned by child `k` and grew that child's footprint only by fresh objects, the
        node is still valid once its footprint takes in the child's, and every other child keeps
        its value. */
    twostate lemma ChildUpdated(k: nat)
      requires old(Valid()) && k < |old(children)|
      requires children == old(children) && points == old(points) && hasChildren == old(hasChildren)
      requires children[k].Valid() && children[k].loc == loc
      requires old(children[k].Repr) <= children[k].Repr && fresh(children[k].Repr - old(children[k].Repr))
      requires Repr == old(Repr) + children[k].Repr
      requires forall o :: o in old(Repr) && o !in old(children[k].Repr) && o != this ==> unchanged(o)
      ensures Valid()
      ensures forall i :: 0 <= i < |children| && i != k ==> children[i].Model() == old(children[i].Model())
    {
      forall i | 0 <= i < |children| && i != k
        ensures children[i].Repr == old(children[i].Repr) && children[i].Valid()
        ensures children[i].Model() == old(children[i].Model())
      {
        assert children[i] in old(children[i].Repr);
        assert forall o :: o in old(children[i].Repr) ==> unchanged(o);
      }
    }

    /** Frame reasoning for a leaf whose point list was reassigned: it stays valid, and its
        value is a leaf over the same cube holding the new points. */
    twostate lemma PointsUpdated()
      requires old(Valid()) && !old(hasChildren)
      requires children == old(children) && hasChildren == old(hasChildren) && Repr == old(Repr)
      ensures Valid() && Model() == Leaf(Cube(), points)
    {
    }

    /** `insert_points`: a leaf appends the whole cloud; a node with children offers the points
        to its children one at a time, in order. */
    method InsertPoints(pts: seq<P>)
      requires Valid()
      modifies Repr
      ensures Valid() && Repr == old(Repr)
      ensures Model() == Insert(old(Model()), pts, loc)
      decreases Repr, 1
    {
      if !hasChildren {
        points := points + pts;
        PointsUpdated();
        return;
      }
      ghost var m0 := Model();
      OctreeProps.InsertNothing(m0, loc);
      assert pts[..0] == [];
      for j := 0 to |pts|
        invariant Valid() && Repr == old(Repr) && hasChildren
        invariant Model() == Insert(m0, pts[..j], loc)
      {
        InsertPoint(pts[j]);
        OctreeProps.InsertAppend(m0, pts[..j], [pts[j]], loc);
        assert pts[..j + 1] == pts[..j] + [pts[j]];
      }
      assert pts[..|pts|] == pts;
    }

    /** One point: a leaf appends it; a node with children hands it to every child whose cube
        contains it (under half-open containment, exactly one child when the point lies in this
        node's cube, and none otherwise). */
    method InsertPoint(p: P)
      requires Valid()
      modifies Repr
      ensures Valid() && Repr == old(Repr)
      ensures Model() == Insert(old(Model()), [p], loc)
      decreases Repr, 0
    {
      if !hasChildren {
        points := points + [p];
        PointsUpdated();
        return;
      }
      ghost var m0 := Model();
      ghost var cs := children;
      for k := 0 to |children|
        invariant Valid() && Repr == old(Repr) && hasChildren && children == cs
        invariant forall i :: 0 <= i < k ==>
          children[i].Model() == Insert(m0.kids[i], Route([p], m0.kids[i].box, loc), loc)
        invariant forall i :: k <= i < |children| ==> children[i].Model() == m0.kids[i]
      {
        if Inside(loc(p), children[k].Cube()) {
          label Before:
          children[k].InsertPoints([p]);
          ChildUpdated@Before(k);
          assert Route([p], m0.kids[k].box, loc) == [p];
        } else {
          OctreeProps.InsertNothing(m0.kids[k], loc);
          assert Route([p], m0.kids[k].box, loc) == [];
        }
      }
      ghost var m1 := Model();
      ghost var r := Insert(m0, [p], loc);
      OctreeProps.InsertKids(m0, [p], loc);
      assert forall i :: 0 <= i < |m1.kids| ==> m1.kids[i] == r.kids[i];
      assert m1.kids == r.kids;
      assert m1 == r;
    }

    /** The eight children `subdivide` creates: fresh empty leaves of half the edge length, at
        the corner offsets in the order of `itertools.product([0, h], repeat=3)`. */
    method NewChildren() returns (kids: seq<OctreeNode<P>>)
      ensures |kids| == 8
      ensures forall j :: 0 <= j < 8 ==> fresh(kids[j])
      ensures forall j :: 0 <= j < 8 ==> kids[j].Repr == {kids[j]} && kids[j].loc == loc
      ensures forall j :: 0 <= j < 8 ==> kids[j].Valid()
      ensures forall j :: 0 <= j < 8 ==> kids[j].Model() == Leaf(ChildBox(Cube(), j), [])
      ensures forall j, l :: 0 <= j < l < 8 ==> kids[j] != kids[l]
    {
      var h := edgeLength / 2.0;
      var offsets := Offsets(h);
      kids := [];
      for i := 0 to 8
        invariant |kids| == i
        invariant forall j :: 0 <= j < i ==> fresh(kids[j])
        invariant forall j :: 0 <= j < i ==> kids[j].Repr == {kids[j]} && kids[j].loc == loc
        invariant forall j :: 0 <= j < i ==> kids[j].Valid()
        invariant forall j :: 0 <= j < i ==> kids[j].Model() == Leaf(ChildBox(Cube(), j), [])
        invariant forall j, l :: 0 <= j < l < i ==> kids[j] != kids[l]
      {
        var child := new OctreeNode(Add(corner, offsets[i]), h, loc);
        kids := kids + [child];
      }
    }

    /** The split step of `subdivide`: eight fresh half-size leaves, one per corner offset in
        the order of `itertools.product([0, h], repeat=3)`, become the children and receive the
        node's own points, which the node no longer stores. */
    method Split()
      requires Valid()
      modifies Repr
      ensures Valid() && old(Repr) <= Repr && fresh(Repr - old(Repr))
      ensures Model() == OctreeModel.Split(old(Model()), loc)
    {
      ghost var m0 := Model();
      var pts := points;
      assert pts == LocalPoints(m0);
      var kids := NewChildren();
      children := kids;
      hasChildren := true;
      points := [];
      Repr := Repr + set j | 0 <= j < 8 :: kids[j];
      assert Model() == Internal(Cube(), EmptyChildren(Cube()));
      InsertPoints(pts);
    }

    /** `subdivide`: when any criterion holds on the node's own points, eight fresh half-size
        children take over those points and are subdivided in turn; otherwise nothing changes.
        `fuel` bounds the depth of the recursion. */
    method Subdivide(criteria: seq<seq<P> -> bool>, fuel: nat)
      requires Valid()
      modifies Repr
      ensures Valid() && old(Repr) <= Repr && fresh(Repr - old(Repr))
      ensures Model() == OctreeModel.Subdivide(old(Model()), criteria, fuel, loc)
      decreases fuel, 1
    {
      if !(fuel > 0 && AnyHolds(criteria, points)) {
        return;
      }
      ghost var m0 := Model();
      Split();
      ghost var split := Model();
      SubdivideChildren(criteria, fuel - 1);
      OctreeProps.SubdivideStep(m0, criteria, fuel, loc);
      assert Model().kids == OctreeModel.Subdivide(m0, criteria, fuel, loc).kids;
    }

    /** The recursive step of `subdivide`: every child is subdivided in turn. */
    method SubdivideChildren(criteria: seq<seq<P> -> bool>, fuel: nat)
      requires Valid() && hasChildren
      modifies Repr
      ensures Valid() && old(Repr) <= Repr && fresh(Repr - old(Repr)) && hasChildren
      ensures Model().box == old(Model()).box && |Model().kids| == |old(Model()).kids|
      ensures forall j :: 0 <= j < |Model().kids| ==>
        Model().kids[j] == OctreeModel.Subdivide(old(Model()).kids[j], criteria, fuel, loc)
      decreases fuel + 1, 0
    {
      ghost var m0 := Model();
      ghost var cs := children;
      for i := 0 to 8
        invariant Valid() && old(Repr) <= Repr && fresh(Repr - old(Repr)) && children == cs && hasChildren
        invariant forall j :: 0 <= j < i ==> children[j].Model() == OctreeModel.Subdivide(m0.kids[j], criteria, fuel, loc)
        invariant forall j :: i <= j < 8 ==> children[j].Model() == m0.kids[j]
      {
        label Before:
        children[i].Subdivide(criteria, fuel);
        Repr := Repr + children[i].Repr;
        ChildUpdated@Before(i);
      }
    }

    /** `filter`: a leaf whose points fail some criterion is emptied; a node with children
        filters each child and becomes an empty leaf when every child is then empty. */
    method Filter(criteria: seq<seq<P> -> bool>)
      requires Valid()
      modifies Repr
      ensures Valid() && Repr == old(Repr)
      ensures Model() == OctreeModel.Filter(old(Model()), criteria)
      decreases Repr
    {
      if !hasChildren {
        if !AllHold(criteria, points) {
          points := [];
        }
        PointsUpdated();
        return;
      }
      ghost var m0 := Model();
      ghost var cs := children;
      for i := 0 to |children|
        invariant Valid() && Repr == old(Repr) && children == cs && hasChildren
        invariant forall j :: 0 <= j < i ==> children[j].Model() == OctreeModel.Filter(m0.kids[j], criteria)
        invariant forall j :: i <= j < |children| ==> children[j].Model() == m0.kids[j]
      {
        label Before:
        children[i].Filter(criteria);
        ChildUpdated@Before(i);
      }
      OctreeProps.FilterInternal(m0, criteria);
      assert Model().kids == OctreeProps.FilteredKids(m0, criteria);
      ghost var m1 := Model();
      assert forall i :: 0 <= i < |children| ==> m1.kids[i] == children[i].Model();
      if forall i :: 0 <= i < |children| ==> NPoints(children[i].Model()) == 0 {
        children := [];
        hasChildren := false;
      }
    }

    /** `map_leaf_points`: every non-empty leaf's points are replaced by `f` of them. */
    method MapLeafPoints(f: seq<P> -> seq<P>)
      requires Valid()
      modifies Repr
      ensures Valid() && Repr == old(Repr)
      ensures Model() == MapLeaves(old(Model()), f)
      decreases Repr
    {
      if !hasChildren {
        if points != [] {
          points := f(points);
        }
        PointsUpdated();
        return;
      }
      ghost var m0 := Model();
      ghost var cs := children;
      for i := 0 to |children|
        invariant Valid() && Repr == old(Repr) && children == cs && hasChildren
        invariant forall j :: 0 <= j < i ==> children[j].Model() == MapLeaves(m0.kids[j], f)
        invariant forall j :: i <= j < |children| ==> children[j].Model() == m0.kids[j]
      {
        label Before:
        children[i].MapLeafPoints(f);
        ChildUpdated@Before(i);
      }
      assert Model().kids == MapLeaves(m0, f).kids;
    }
  }

  /** `OctreeConfig`: the only setting is the debug flag, on by default. */
  datatype OctreeConfig = OctreeConfig(debug: bool := true)

  /** `Octree`: a cube of space, its configuration and the root node, to which every operation
      is delegated. */
  class Octree<P> {
    const config: OctreeConfig
    const corner: Point
    const edgeLength: real
    const root: OctreeNode<P>
    ghost var Repr: set<object>

    ghost predicate Valid()
      reads this, Repr
    {
      this in Repr && root in Repr && root.Repr <= Repr && this !in root.Repr && root.Valid()
    }

    /** The value of the whole octree: the value of its root. */
    function Model(): (t: Tree<P>)
      reads this, Repr
      requires Valid()
    {
      root.Model()
    }

    /** `OctreeBase.__init__`: the root is a new empty leaf covering exactly the octree's own
        corner and edge length. */
    constructor (config: OctreeConfig, corner: Point, edgeLength: real, loc: P -> Point)
      ensures Valid() && fresh(Repr)
      ensures this.config == config && this.corner == corner && this.edgeLength == edgeLength
      ensures root.corner == corner && root.edgeLength == edgeLength && root.loc == loc
      ensures Model() == Leaf(Box(corner, edgeLength), [])
    {
      this.config := config;
      this.corner := corner;
      this.edgeLength := edgeLength;
      var r := new OctreeNode(corner, edgeLength, loc);
      root := r;
      Repr := {this} + r.Repr;
    }

    method InsertPoints(pts: seq<P>)
      requires Valid()
      modifies Repr
      ensures Valid() && Repr == old(Repr)
      ensures Model() == Insert(old(Model()), pts, root.loc)
    {
      root.InsertPoints(pts);
    }

    method Subdivide(criteria: seq<seq<P> -> bool>, fuel: nat)
      requires Valid()
      modifies Repr
      ensures Valid() && old(Repr) <= Repr && fresh(Repr - old(Repr))
      ensures Model() == OctreeModel.Subdivide(old(Model()), criteria, fuel, root.loc)
    {
      root.Subdivide(criteria, fuel);
      Repr := Repr + root.Repr;
    }

    method Filter(criteria: seq<seq<P> -> bool>)
      requires Valid()
      modifies Repr
      ensures Valid() && Repr == old(Repr)
      ensures Model() == OctreeModel.Filter(old(Model()), criteria)
    {
      root.Filter(criteria);
    }

    method MapLeafPoints(f: seq<P> -> seq<P>)
      requires Valid()
      modifies Repr
      ensures Valid() && Repr == old(Repr)
      ensures Model() == MapLeaves(old(Model()), f)
    {
      root.MapLeafPoints(f);
    }
    /** `get_leaf_node_points`: the leaf clouds, nested as the tree is; flattened, the `i`-th
        cloud is the `i`-th leaf's point list, and together they are every stored point in order. */
    function GetLeafNodePoints(): (r: Listing<P>)
      reads this, Repr
      requires Valid()
      ensures |Flatten(r)| == OctreeModel.NLeaves(Model())
      ensures Concat(Flatten(r)) == Points(Model())
      ensures |Flatten(r)| == |Leaves(Model())| &&
              forall i :: 0 <= i < |Leaves(Model())| ==> Flatten(r)[i] == Leaves(Model())[i].pts
    {
      OctreeProps.LeafNodePointsListsLeaves(Model());
      LeafNodePoints(Model())
    }

    /** `get_points`: the leaf clouds one after the other. */
    function GetPoints(): (r: seq<P>)
      reads this, Repr
      requires Valid()
      ensures r == Concat(Flatten(GetLeafNodePoints()))
    {
      Points(Model())
    }

    /** `get_points_in_box`: the stored points the query box, a pair of minimum and maximum
        corners, contains, in stored order. */
    function GetPointsInBox(q: (Point, Point)): (r: seq<P>)
      reads this, Repr
      requires Valid()
      ensures r == Select(GetPoints(), InRange(q, root.loc))
    {
      OctreeProps.PointsInBoxSelects(Model(), q, root.loc);
      PointsInBox(Model(), q, root.loc)
    }

    /** `n_points` */
    function NPoints(): (r: nat)
      reads this, Repr
      requires Valid()
      ensures r == |GetPoints()|
    {
      OctreeProps.NPointsIsLength(Model());
      OctreeModel.NPoints(Model())
    }

    /** `n_leafs`: every leaf counts one, empty or not. */
    function NLeaves(): (r: nat)
      reads this, Repr
      requires Valid()
      ensures r == |Flatten(GetLeafNodePoints())|
    {
      OctreeModel.NLeaves(Model())
    }

    /** `n_nodes`: eight when the root has children, zero when it is a leaf. */
    function NNodes(): (r: nat)
      reads this, Repr
      requires Valid()
      ensures r == if Model().Internal? then 8 else 0
    {
      OctreeModel.NNodes(Model())
    }
  }
}
