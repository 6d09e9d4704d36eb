/** The value of an octree node and every operation of `OctreeNode` as a function on that value.
    A node is a leaf holding an ordered point cloud or an internal node holding its children.
    The tree is generic in the stored point type `P`; `loc` projects a stored point to the
    coordinates that decide routing (the identity for plain points, the coordinates without the
    pose tag for pose-tagged points). */
module OctreeModel {
  import opened Geometry
  import opened Seqs

  datatype Tree<P> = Leaf(box: Box, pts: seq<P>) | Internal(box: Box, kids: seq<Tree<P>>)

  /** The nested result of `get_leaf_node_points`: a leaf gives a list holding its one cloud,
      an internal node the list of its children's results. */
  datatype Listing<P> = Clouds(clouds: seq<seq<P>>) | Lists(items: seq<Listing<P>>)

  /* ---------------- containment of stored points ---------------- */

  /** The test `point_is_inside_box(point, box)` as a predicate on stored points. */
  function InBox<P>(b: Box, loc: P -> Point): (r: P -> bool)
  {
    p => Inside(loc(p), b)
  }

  /** The same test against a query box given by its minimum and maximum corners. */
  function InRange<P>(q: (Point, Point), loc: P -> Point): (r: P -> bool)
  {
    p => InsideRange(loc(p), q.0, q.1)
  }

  /** The points of `pts` that lie in `b`, in their original order. */
  function Route<P>(pts: seq<P>, b: Box, loc: P -> Point): (r: seq<P>)
  {
    Select(pts, InBox(b, loc))
  }

  predicate AllInside<P>(pts: seq<P>, b: Box, loc: P -> Point)
  {
    forall j :: 0 <= j < |pts| ==> Inside(loc(pts[j]), b)
  }

  /* ---------------- read-only queries ---------------- */

  /** `get_points`: the concatenation of all leaf clouds, children in order. */
  function Points<P>(t: Tree<P>): (r: seq<P>)
  {
    match t
    case Leaf(_, ps) => ps
    case Internal(_, kids) => Concat(seq(|kids|, i requires 0 <= i < |kids| => Points(kids[i])))
  }

  /** `get_points_inside_box`: at each leaf, the points the query box `q`, a pair of minimum and
      maximum corners, contains. */
  function PointsInBox<P>(t: Tree<P>, q: (Point, Point), loc: P -> Point): (r: seq<P>)
  {
    match t
    case Leaf(_, ps) => Select(ps, InRange(q, loc))
    case Internal(_, kids) =>
      Concat(seq(|kids|, i requires 0 <= i < |kids| => PointsInBox(kids[i], q, loc)))
  }

  /** `n_points` */
  function NPoints<P>(t: Tree<P>): (r: nat)
  {
    match t
    case Leaf(_, ps) => |ps|
    case Internal(_, kids) => Sum(seq(|kids|, i requires 0 <= i < |kids| => NPoints(kids[i])))
  }

  /** `n_leafs`: every leaf counts one, empty or not. */
  function NLeaves<P>(t: Tree<P>): (r: nat)
  {
    match t
    case Leaf(_, _) => 1
    case Internal(_, kids) => Sum(seq(|kids|, i requires 0 <= i < |kids| => NLeaves(kids[i])))
  }

  /** `n_nodes`, as written: the number of direct children of an internal node, 0 for a leaf. */
  function NNodes<P>(t: Tree<P>): (r: nat)
  {
    if t.Internal? then |t.kids| else 0
  }

  /** `get_leaf_node_points` */
  function LeafNodePoints<P>(t: Tree<P>): (r: Listing<P>)
  {
    match t
    case Leaf(_, ps) => Clouds([ps])
    case Internal(_, kids) => Lists(seq(|kids|, i requires 0 <= i < |kids| => LeafNodePoints(kids[i])))
  }

  /** The clouds of a listing, left to right. */
  function Flatten<P>(l: Listing<P>): (r: seq<seq<P>>)
  {
    match l
    case Clouds(cs) => cs
    case Lists(items) => Concat(seq(|items|, i requires 0 <= i < |items| => Flatten(items[i])))
  }

  /** The leaves of a tree, left to right: the order in which the queries visit them. */
  function Leaves<P>(t: Tree<P>): (r: seq<Tree<P>>)
    ensures forall i :: 0 <= i < |r| ==> r[i].Leaf?
  {
    match t
    case Leaf(_, _) => [t]
    case Internal(_, kids) =>
      var ls := seq(|kids|, i requires 0 <= i < |kids| => Leaves(kids[i]));
      ConcatOfLeaves(ls);
      Concat(ls)
  }

  /** Lists of leaves joined together hold only leaves. */
  lemma {:induction false} ConcatOfLeaves<P>(ss: seq<seq<Tree<P>>>)
    requires forall i, j :: 0 <= i < |ss| && 0 <= j < |ss[i]| ==> ss[i][j].Leaf?
    ensures forall k :: 0 <= k < |Concat(ss)| ==> Concat(ss)[k].Leaf?
  {
    if ss != [] {
      ConcatOfLeaves(ss[1..]);
    }
  }

  /** The clouds of a list of leaves, in order: the reference listing for `get_leaf_node_points`. */
  function LeafClouds<P>(ls: seq<Tree<P>>): (r: seq<seq<P>>)
    ensures (forall i :: 0 <= i < |ls| ==> ls[i].Leaf?) ==>
              |r| == |ls| && forall i :: 0 <= i < |ls| ==> r[i] == ls[i].pts
  {
    if ls == [] then []
    else (if ls[0].Leaf? then [ls[0].pts] else []) + LeafClouds(ls[1..])
  }

  /* ---------------- updates ---------------- */

  /** `insert_points`: a leaf appends the whole cloud without any geometric check; an internal
      node hands each child the points its box contains. A point no child contains is dropped. */
  function Insert<P>(t: Tree<P>, pts: seq<P>, loc: P -> Point): (r: Tree<P>)
    ensures r.box == t.box && r.Leaf? == t.Leaf?
    ensures r.Internal? ==> |r.kids| == |t.kids|
    ensures r.Internal? ==> forall i :: 0 <= i < |r.kids| ==> r.kids[i].box == t.kids[i].box
  {
    match t
    case Leaf(b, ps) => Leaf(b, ps + pts)
    case Internal(b, kids) =>
      Internal(b, seq(|kids|, i requires 0 <= i < |kids| => Insert(kids[i], Route(pts, kids[i].box, loc), loc)))
  }

  /** `any(criterion(points) for criterion in criteria)` */
  predicate AnyHolds<P>(criteria: seq<seq<P> -> bool>, pts: seq<P>)
  {
    exists i :: 0 <= i < |criteria| && criteria[i](pts)
  }

  /** `all(criterion(points) for criterion in criteria)` */
  predicate AllHold<P>(criteria: seq<seq<P> -> bool>, pts: seq<P>)
  {
    forall i :: 0 <= i < |criteria| ==> criteria[i](pts)
  }

  /** The node's own point list: a leaf's cloud; an internal node keeps none. */
  function LocalPoints<P>(t: Tree<P>): (r: seq<P>)
  {
    if t.Leaf? then t.pts else []
  }

  /** Eight fresh, empty, half-size leaves at the bisected corners. */
  function EmptyChildren<P>(b: Box): (r: seq<Tree<P>>)
    ensures |r| == 8
  {
    seq(8, i requires 0 <= i < 8 => Leaf(ChildBox(b, i), []))
  }

  /** One split step: eight fresh children receive the node's own points by routing. */
  function Split<P>(t: Tree<P>, loc: P -> Point): (r: Tree<P>)
    ensures r.Internal? && r.box == t.box && |r.kids| == 8
  {
    Insert(Internal(t.box, EmptyChildren(t.box)), LocalPoints(t), loc)
  }

  /** `subdivide`: when any criterion holds on the node's own points, split and subdivide each
      new child. The source tests the node's own point list whether or not the node already has
      children; `fuel` bounds the depth of recursion, which the source leaves unbounded. */
  function Subdivide<P>(t: Tree<P>, criteria: seq<seq<P> -> bool>, fuel: nat, loc: P -> Point): (r: Tree<P>)
    ensures r.box == t.box
    decreases fuel
  {
    if fuel > 0 && AnyHolds(criteria, LocalPoints(t)) then
      var s := Split(t, loc);
      Internal(t.box, seq(8, i requires 0 <= i < 8 => Subdivide(s.kids[i], criteria, fuel - 1, loc)))
    else
      t
  }

  /** `filter`: a leaf keeps its points only if every criterion holds on them; an internal node
      filters its children and becomes an empty leaf when all of them are then empty. */
  function Filter<P>(t: Tree<P>, criteria: seq<seq<P> -> bool>): (r: Tree<P>)
    ensures r.box == t.box
  {
    match t
    case Leaf(b, ps) => if AllHold(criteria, ps) then t else Leaf(b, [])
    case Internal(b, kids) =>
      var fk := seq(|kids|, i requires 0 <= i < |kids| => Filter(kids[i], criteria));
      if forall i :: 0 <= i < |fk| ==> NPoints(fk[i]) == 0 then Leaf(b, []) else Internal(b, fk)
  }

  /** `map_leaf_points`: every non-empty leaf's cloud is replaced by `f` of it. */
  function MapLeaves<P>(t: Tree<P>, f: seq<P> -> seq<P>): (r: Tree<P>)
  {
    match t
    case Leaf(b, ps) => if ps != [] then Leaf(b, f(ps)) else t
    case Internal(b, kids) => Internal(b, seq(|kids|, i requires 0 <= i < |kids| => MapLeaves(kids[i], f)))
  }

  /* ---------------- structural invariants ---------------- */

  /** A node is a leaf or has exactly eight children, child `i` covering the `i`-th bisected
      cube of its parent; every edge length is positive. */
  predicate WellFormed<P>(t: Tree<P>)
  {
    match t
    case Leaf(b, _) => b.edge > 0.0
    case Internal(b, kids) =>
      b.edge > 0.0 && |kids| == 8 &&
      forall i :: 0 <= i < 8 ==> kids[i].box == ChildBox(b, i) && WellFormed(kids[i])
  }

  /** Every stored point lies in the box of the leaf that stores it. */
  predicate Located<P>(t: Tree<P>, loc: P -> Point)
  {
    match t
    case Leaf(b, ps) => AllInside(ps, b, loc)
    case Internal(_, kids) => forall i :: 0 <= i < |kids| ==> Located(kids[i], loc)
  }

  /** No internal node has an empty subtree: what `filter` leaves behind. */
  predicate Pruned<P>(t: Tree<P>)
  {
    match t
    case Leaf(_, _) => true
    case Internal(_, kids) => NPoints(t) > 0 && forall i :: 0 <= i < |kids| ==> Pruned(kids[i])
  }

  /** Every leaf stores at least one point. */
  predicate NoEmptyLeaf<P>(t: Tree<P>)
  {
    match t
    case Leaf(_, ps) => ps != []
    case Internal(_, kids) => forall i :: 0 <= i < |kids| ==> NoEmptyLeaf(kids[i])
  }

  /** Same nodes, same boxes, same leaf/internal split; only leaf clouds may differ. */
  predicate SameShape<P>(s: Tree<P>, t: Tree<P>)
  {
    s.box == t.box && s.Leaf? == t.Leaf? &&
    (s.Internal? ==> |s.kids| == |t.kids| && forall i :: 0 <= i < |s.kids| ==> SameShape(s.kids[i], t.kids[i]))
  }
}
