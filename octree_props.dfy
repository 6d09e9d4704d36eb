/** What the operations of `OctreeNode` promise, proved about the tree functions. */
module OctreeProps {
  import opened Geometry
  import opened Seqs
  import opened OctreeModel

  /* ---------------- routing ---------------- */

  /** Routing keeps every point the box contains, with its multiplicity, and nothing else. */
  lemma {:induction false} RouteCount<P>(pts: seq<P>, b: Box, loc: P -> Point, x: P)
    ensures multiset(Route(pts, b, loc))[x] == if Inside(loc(x), b) then multiset(pts)[x] else 0
  {
    SelectCount(pts, InBox(b, loc), x);
  }

  /** Routing a cloud to the eight children of a cube places each point the cube contains
      exactly once, and none of the others. */
  lemma {:induction false} RoutePartition<P>(pts: seq<P>, b: Box, loc: P -> Point, x: P)
    requires b.edge > 0.0
    ensures Sum(seq(8, i requires 0 <= i < 8 => multiset(Route(pts, ChildBox(b, i), loc))[x]))
         == multiset(Route(pts, b, loc))[x]
  {
    var cs := seq(8, i requires 0 <= i < 8 => multiset(Route(pts, ChildBox(b, i), loc))[x]);
    ChildrenPartition(b, loc(x));
    RouteCount(pts, b, loc, x);
    forall i | 0 <= i < 8
      ensures cs[i] == if Inside(loc(x), b) && i == ChildIndex(b, loc(x)) then multiset(pts)[x] else 0
    {
      RouteCount(pts, ChildBox(b, i), loc, x);
    }
    if Inside(loc(x), b) {
      SumSingle(cs, ChildIndex(b, loc(x)));
    } else {
      SumZero(cs);
    }
  }

  /* ---------------- queries ---------------- */

  /** `n_points` is the length of `get_points`. */
  lemma {:induction false} NPointsIsLength<P>(t: Tree<P>)
    ensures NPoints(t) == |Points(t)|
  {
    match t
    case Leaf(_, _) =>
    case Internal(_, kids) =>
      var ps := seq(|kids|, i requires 0 <= i < |kids| => Points(kids[i]));
      ConcatLength(ps);
      forall i | 0 <= i < |kids| ensures NPoints(kids[i]) == |Points(kids[i])| {
        NPointsIsLength(kids[i]);
      }
      assert seq(|ps|, i requires 0 <= i < |ps| => |ps[i]|)
          == seq(|kids|, i requires 0 <= i < |kids| => NPoints(kids[i]));
  }

  /** `get_points_inside_box(q)` is the subsequence of `get_points()` that `q` contains. */
  lemma {:induction false} PointsInBoxSelects<P>(t: Tree<P>, q: (Point, Point), loc: P -> Point)
    ensures PointsInBox(t, q, loc) == Select(Points(t), InRange(q, loc))
  {
    match t
    case Leaf(_, _) =>
    case Internal(_, kids) =>
      var ps := seq(|kids|, i requires 0 <= i < |kids| => Points(kids[i]));
      SelectConcat(ps, InRange(q, loc));
      forall i | 0 <= i < |kids| ensures PointsInBox(kids[i], q, loc) == Select(Points(kids[i]), InRange(q, loc)) {
        PointsInBoxSelects(kids[i], q, loc);
      }
      assert seq(|ps|, i requires 0 <= i < |ps| => Select(ps[i], InRange(q, loc)))
          == seq(|kids|, i requires 0 <= i < |kids| => PointsInBox(kids[i], q, loc));
  }

  /** A query with a node's own `bounding_box` returns exactly the points routing sends into that
      cube: the range test and the cube test agree. */
  lemma PointsInBoxOfCube<P>(t: Tree<P>, b: Box, loc: P -> Point)
    ensures PointsInBox(t, BoundingBox(b), loc) == Route(Points(t), b, loc)
  {
    PointsInBoxSelects(t, BoundingBox(b), loc);
    forall p ensures InRange(BoundingBox(b), loc)(p) == InBox(b, loc)(p) {
      assert InBox(b, loc)(p) == Inside(loc(p), b);
    }
    SelectSame(Points(t), InRange(BoundingBox(b), loc), InBox(b, loc));
  }

  /** `get_leaf_node_points` lists one cloud per leaf, empty leaves included: flattened, its
      `i`-th cloud is the point list of the `i`-th leaf, and the clouds read left to right are
      `get_points()`. */
  lemma {:induction false} LeafNodePointsListsLeaves<P>(t: Tree<P>)
    ensures |Flatten(LeafNodePoints(t))| == NLeaves(t)
    ensures Concat(Flatten(LeafNodePoints(t))) == Points(t)
    ensures Flatten(LeafNodePoints(t)) == LeafClouds(Leaves(t))
    ensures |Flatten(LeafNodePoints(t))| == |Leaves(t)| &&
            forall i :: 0 <= i < |Leaves(t)| ==> Flatten(LeafNodePoints(t))[i] == Leaves(t)[i].pts
  {
    match t
    case Leaf(_, ps) =>
      assert Concat([ps]) == ps + Concat([]);
    case Internal(_, kids) =>
      var fs := seq(|kids|, i requires 0 <= i < |kids| => Flatten(LeafNodePoints(kids[i])));
      forall i | 0 <= i < |kids|
        ensures |fs[i]| == NLeaves(kids[i]) && Concat(fs[i]) == Points(kids[i])
      {
        LeafNodePointsListsLeaves(kids[i]);
      }
      var items := seq(|kids|, i requires 0 <= i < |kids| => LeafNodePoints(kids[i]));
      assert seq(|items|, i requires 0 <= i < |items| => Flatten(items[i])) == fs;
      ConcatLength(fs);
      assert seq(|fs|, i requires 0 <= i < |fs| => |fs[i]|)
          == seq(|kids|, i requires 0 <= i < |kids| => NLeaves(kids[i]));
      ConcatConcat(fs);
      assert seq(|fs|, i requires 0 <= i < |fs| => Concat(fs[i]))
          == seq(|kids|, i requires 0 <= i < |kids| => Points(kids[i]));
      var ls := seq(|kids|, i requires 0 <= i < |kids| => Leaves(kids[i]));
      LeafCloudsConcat(ls);
      forall i | 0 <= i < |kids| ensures fs[i] == LeafClouds(ls[i]) {
        LeafNodePointsListsLeaves(kids[i]);
      }
      assert seq(|ls|, i requires 0 <= i < |ls| => LeafClouds(ls[i])) == fs;
  }

  lemma {:induction false} LeafCloudsAppend<P>(a: seq<Tree<P>>, b: seq<Tree<P>>)
    ensures LeafClouds(a + b) == LeafClouds(a) + LeafClouds(b)
  {
    if a == [] {
      assert a + b == b;
    } else {
      assert (a + b)[1..] == a[1..] + b;
      LeafCloudsAppend(a[1..], b);
    }
  }

  lemma {:induction false} LeafCloudsConcat<P>(ss: seq<seq<Tree<P>>>)
    ensures LeafClouds(Concat(ss)) == Concat(seq(|ss|, i requires 0 <= i < |ss| => LeafClouds(ss[i])))
  {
    if ss != [] {
      LeafCloudsAppend(ss[0], Concat(ss[1..]));
      LeafCloudsConcat(ss[1..]);
      assert seq(|ss|, i requires 0 <= i < |ss| => LeafClouds(ss[i]))[1..]
          == seq(|ss[1..]|, i requires 0 <= i < |ss[1..]| => LeafClouds(ss[1..][i]));
    }
  }

  /** The leaf listing has one entry per leaf `n_leafs` counts. */
  lemma {:induction false} LeavesCounted<P>(t: Tree<P>)
    ensures |Leaves(t)| == NLeaves(t)
  {
    match t
    case Leaf(_, _) =>
    case Internal(_, kids) =>
      var ls := seq(|kids|, i requires 0 <= i < |kids| => Leaves(kids[i]));
      ConcatLength(ls);
      forall i | 0 <= i < |kids| ensures |ls[i]| == NLeaves(kids[i]) {
        LeavesCounted(kids[i]);
      }
      assert seq(|ls|, i requires 0 <= i < |ls| => |ls[i]|)
          == seq(|kids|, i requires 0 <= i < |kids| => NLeaves(kids[i]));
  }

  /** On a well-formed tree `n_nodes` is 8 for an internal node and 0 for a leaf. */
  lemma NNodesOfWellFormed<P>(t: Tree<P>)
    requires WellFormed(t)
    ensures NNodes(t) == if t.Internal? then 8 else 0
  {
  }

  /* ---------------- insert_points ---------------- */

  /** Inserting nothing changes nothing. */
  lemma {:induction false} InsertNothing<P>(t: Tree<P>, loc: P -> Point)
    ensures Insert(t, [], loc) == t
  {
    match t
    case Leaf(_, ps) =>
      assert ps + [] == ps;
    case Internal(b, kids) =>
      forall i | 0 <= i < |kids| ensures Insert(kids[i], Route([], kids[i].box, loc), loc) == kids[i] {
        InsertNothing(kids[i], loc);
      }
      assert Insert(t, [], loc).kids == kids;
  }

  /** On an internal node, child `i` receives exactly the points its box contains. */
  lemma InsertKids<P>(t: Tree<P>, pts: seq<P>, loc: P -> Point)
    requires t.Internal?
    ensures forall i :: 0 <= i < |t.kids| ==>
      Insert(t, pts, loc).kids[i] == Insert(t.kids[i], Route(pts, t.kids[i].box, loc), loc)
  {
  }

  /** Inserting two clouds one after the other is inserting their concatenation: routing point
      by point, as the source does, gives the same tree as routing the whole cloud at once. */
  lemma {:induction false} InsertAppend<P>(t: Tree<P>, a: seq<P>, c: seq<P>, loc: P -> Point)
    ensures Insert(Insert(t, a, loc), c, loc) == Insert(t, a + c, loc)
  {
    match t
    case Leaf(_, ps) =>
      assert ps + a + c == ps + (a + c);
    case Internal(b, kids) =>
      var t1 := Insert(t, a, loc);
      forall i | 0 <= i < |kids|
        ensures Insert(t1.kids[i], Route(c, t1.kids[i].box, loc), loc)
             == Insert(kids[i], Route(a + c, kids[i].box, loc), loc)
      {
        SelectAppend(a, c, InBox(kids[i].box, loc));
        InsertAppend(kids[i], Route(a, kids[i].box, loc), Route(c, kids[i].box, loc), loc);
      }
      assert Insert(t1, c, loc).kids == Insert(t, a + c, loc).kids;
  }

  /** The occurrences of `x` below an internal node are the sum of those below each child. */
  lemma PointsCount<P>(t: Tree<P>, x: P)
    requires t.Internal?
    ensures multiset(Points(t))[x]
         == Sum(seq(|t.kids|, i requires 0 <= i < |t.kids| => multiset(Points(t.kids[i]))[x]))
  {
    var ps := seq(|t.kids|, i requires 0 <= i < |t.kids| => Points(t.kids[i]));
    ConcatCount(ps, x);
    assert seq(|ps|, i requires 0 <= i < |ps| => multiset(ps[i])[x])
        == seq(|t.kids|, i requires 0 <= i < |t.kids| => multiset(Points(t.kids[i]))[x]);
  }

  /** Insertion, counted one point value at a time. */
  lemma {:induction false} InsertCount<P>(t: Tree<P>, pts: seq<P>, loc: P -> Point, x: P)
    requires WellFormed(t)
    ensures multiset(Points(Insert(t, pts, loc)))[x]
         == multiset(Points(t))[x] + multiset(if t.Leaf? then pts else Route(pts, t.box, loc))[x]
  {
    match t
    case Leaf(_, _) =>
    case Internal(b, kids) =>
      var r := Insert(t, pts, loc);
      PointsCount(r, x);
      PointsCount(t, x);
      var cs := seq(8, i requires 0 <= i < 8 => multiset(Route(pts, ChildBox(b, i), loc))[x]);
      var before := seq(8, i requires 0 <= i < 8 => multiset(Points(kids[i]))[x]);
      var after := seq(8, i requires 0 <= i < 8 => multiset(Points(r.kids[i]))[x]);
      forall i | 0 <= i < 8 ensures after[i] == before[i] + cs[i] {
        assert r.kids[i] == Insert(kids[i], Route(pts, kids[i].box, loc), loc);
        InsertCount(kids[i], Route(pts, kids[i].box, loc), loc, x);
        if kids[i].Internal? {
          SelectTwice(pts, InBox(kids[i].box, loc));
        }
      }
      SumAdd(before, cs, after);
      RoutePartition(pts, b, loc, x);
  }

  /** Routing correctness: a leaf stores every inserted point; a well-formed internal node stores
      exactly the inserted points its box contains, each once, and drops the rest. */
  lemma InsertStores<P>(t: Tree<P>, pts: seq<P>, loc: P -> Point)
    requires WellFormed(t)
    ensures multiset(Points(Insert(t, pts, loc)))
         == multiset(Points(t)) + multiset(if t.Leaf? then pts else Route(pts, t.box, loc))
  {
    var stored := multiset(Points(Insert(t, pts, loc)));
    var expected := multiset(Points(t)) + multiset(if t.Leaf? then pts else Route(pts, t.box, loc));
    forall x ensures stored[x] == expected[x] {
      InsertCount(t, pts, loc, x);
    }
    MultisetExt(stored, expected);
  }

  /** Insertion keeps a tree well formed. */
  lemma {:induction false} InsertKeepsWellFormed<P>(t: Tree<P>, pts: seq<P>, loc: P -> Point)
    requires WellFormed(t)
    ensures WellFormed(Insert(t, pts, loc))
  {
    match t
    case Leaf(_, _) =>
    case Internal(b, kids) =>
      forall i | 0 <= i < 8 ensures WellFormed(Insert(kids[i], Route(pts, kids[i].box, loc), loc)) {
        InsertKeepsWellFormed(kids[i], Route(pts, kids[i].box, loc), loc);
      }
  }

  /** Insertion keeps every stored point inside its leaf, provided a leaf root only receives
      points inside its box (an internal node routes, so it needs no such care). */
  lemma {:induction false} InsertKeepsLocated<P>(t: Tree<P>, pts: seq<P>, loc: P -> Point)
    requires Located(t, loc)
    requires t.Leaf? ==> AllInside(pts, t.box, loc)
    ensures Located(Insert(t, pts, loc), loc)
  {
    match t
    case Leaf(b, ps) =>
      assert forall j :: 0 <= j < |ps + pts| ==> (ps + pts)[j] == if j < |ps| then ps[j] else pts[j - |ps|];
    case Internal(b, kids) =>
      forall i | 0 <= i < |kids| ensures Located(Insert(kids[i], Route(pts, kids[i].box, loc), loc), loc) {
        InsertKeepsLocated(kids[i], Route(pts, kids[i].box, loc), loc);
      }
  }

  /* ---------------- subdivide ---------------- */

  /** The fresh children of a split are leaves at the bisected corners holding the routed points. */
  lemma SplitKids<P>(t: Tree<P>, loc: P -> Point)
    ensures forall i :: 0 <= i < 8 ==>
      Split(t, loc).kids[i] == Leaf(ChildBox(t.box, i), Route(LocalPoints(t), ChildBox(t.box, i), loc))
  {
    forall i | 0 <= i < 8
      ensures Split(t, loc).kids[i] == Leaf(ChildBox(t.box, i), Route(LocalPoints(t), ChildBox(t.box, i), loc))
    {
      var e := EmptyChildren<P>(t.box);
      var routed := Route(LocalPoints(t), e[i].box, loc);
      assert Split(t, loc).kids[i] == Insert(e[i], routed, loc);
      assert e[i] == Leaf(ChildBox(t.box, i), []);
      assert [] + routed == routed;
    }
  }

  /** When a criterion holds on the node's own points, `subdivide` leaves it internal with no
      points of its own and eight children of half the edge length at corner + {0, edge/2}^3;
      when none holds, the node is unchanged. */
  lemma SubdivideSplitsOnAnyCriterion<P>(t: Tree<P>, criteria: seq<seq<P> -> bool>, fuel: nat, loc: P -> Point)
    ensures fuel > 0 && AnyHolds(criteria, LocalPoints(t)) ==>
      var r := Subdivide(t, criteria, fuel, loc);
      r.Internal? && LocalPoints(r) == [] && |r.kids| == 8 &&
      forall i :: 0 <= i < 8 ==>
        (r.kids[i].box == ChildBox(t.box, i) &&
         r.kids[i].box.edge == t.box.edge / 2.0 &&
         r.kids[i].box.corner == Add(t.box.corner, Offsets(t.box.edge / 2.0)[i]))
    ensures !(fuel > 0 && AnyHolds(criteria, LocalPoints(t))) ==> Subdivide(t, criteria, fuel, loc) == t
  {
    SplitKids(t, loc);
  }

  /** One step of `subdivide` on a node that splits: child `i` of the result is the
      subdivision, one level shallower, of child `i` of the split. */
  lemma SubdivideStep<P>(t: Tree<P>, criteria: seq<seq<P> -> bool>, fuel: nat, loc: P -> Point)
    requires fuel > 0 && AnyHolds(criteria, LocalPoints(t))
    ensures var r := Subdivide(t, criteria, fuel, loc);
      r.Internal? && |r.kids| == 8 &&
      forall i :: 0 <= i < 8 ==> r.kids[i] == Subdivide(Split(t, loc).kids[i], criteria, fuel - 1, loc)
  {
  }

  /** Subdivision, counted one point value at a time. */
  lemma {:induction false} SubdivideCount<P>(t: Tree<P>, criteria: seq<seq<P> -> bool>, fuel: nat, loc: P -> Point, x: P)
    requires WellFormed(t) && Located(t, loc)
    requires t.Leaf? || !AnyHolds(criteria, [])
    ensures multiset(Points(Subdivide(t, criteria, fuel, loc)))[x] == multiset(Points(t))[x]
    decreases fuel
  {
    if fuel > 0 && AnyHolds(criteria, LocalPoints(t)) {
      var b, ps := t.box, t.pts;
      var s := Split(t, loc);
      SplitKids(t, loc);
      var r := Subdivide(t, criteria, fuel, loc);
      PointsCount(r, x);
      var counts := seq(8, i requires 0 <= i < 8 => multiset(Route(ps, ChildBox(b, i), loc))[x]);
      forall i | 0 <= i < 8 ensures multiset(Points(r.kids[i]))[x] == counts[i] {
        assert r.kids[i] == Subdivide(s.kids[i], criteria, fuel - 1, loc);
        SubdivideCount(s.kids[i], criteria, fuel - 1, loc, x);
      }
      assert seq(|r.kids|, i requires 0 <= i < |r.kids| => multiset(Points(r.kids[i]))[x]) == counts;
      RoutePartition(ps, b, loc, x);
      SelectAll(ps, InBox(b, loc));
    }
  }

  /** Point conservation: subdividing a well-formed tree whose points lie in their leaves'
      boxes relocates the points without losing or duplicating any. The second precondition
      excludes only an internal node whose criteria accept the empty cloud, a call on which the
      source recurses without bound and raises `RecursionError` (see SubdivideInternalDiscards). */
  lemma SubdivideConserves<P>(t: Tree<P>, criteria: seq<seq<P> -> bool>, fuel: nat, loc: P -> Point)
    requires WellFormed(t) && Located(t, loc)
    requires t.Leaf? || !AnyHolds(criteria, [])
    ensures multiset(Points(Subdivide(t, criteria, fuel, loc))) == multiset(Points(t))
    ensures NPoints(Subdivide(t, criteria, fuel, loc)) == NPoints(t)
  {
    var after := multiset(Points(Subdivide(t, criteria, fuel, loc)));
    forall x ensures after[x] == multiset(Points(t))[x] {
      SubdivideCount(t, criteria, fuel, loc, x);
    }
    MultisetExt(after, multiset(Points(t)));
    NPointsIsLength(t);
    NPointsIsLength(Subdivide(t, criteria, fuel, loc));
  }

  /** As written, `subdivide` also tests an internal node's (empty) point list. When some
      criterion accepts the empty cloud, the source replaces the children by eight fresh empty
      leaves and recurses into the first of them; the same criterion holds there, so the recursion
      has no bound and the source raises `RecursionError`. What this lemma describes, a subtree
      without points, is only what the model's `fuel` bound cuts that recursion down to. */
  lemma SubdivideInternalDiscards<P>(t: Tree<P>, criteria: seq<seq<P> -> bool>, fuel: nat, loc: P -> Point)
    requires t.Internal? && fuel > 0 && AnyHolds(criteria, [])
    ensures NPoints(Subdivide(t, criteria, fuel, loc)) == 0
  {
    var r := Subdivide(t, criteria, fuel, loc);
    var s := Split(t, loc);
    SplitKids(t, loc);
    forall i | 0 <= i < 8 ensures NPoints(r.kids[i]) == 0 {
      SubdivideEmptyLeaf(s.kids[i], criteria, fuel - 1, loc);
    }
    SumZero(seq(8, i requires 0 <= i < 8 => NPoints(r.kids[i])));
  }

  /** Subdividing an empty leaf yields a tree without points. */
  lemma {:induction false} SubdivideEmptyLeaf<P>(t: Tree<P>, criteria: seq<seq<P> -> bool>, fuel: nat, loc: P -> Point)
    requires t.Leaf? && t.pts == []
    ensures NPoints(Subdivide(t, criteria, fuel, loc)) == 0
    decreases fuel
  {
    if fuel > 0 && AnyHolds(criteria, LocalPoints(t)) {
      var r := Subdivide(t, criteria, fuel, loc);
      var s := Split(t, loc);
      SplitKids(t, loc);
      forall i | 0 <= i < 8 ensures NPoints(r.kids[i]) == 0 {
        SubdivideEmptyLeaf(s.kids[i], criteria, fuel - 1, loc);
      }
      SumZero(seq(8, i requires 0 <= i < 8 => NPoints(r.kids[i])));
    }
  }

  /** `subdivide` keeps a tree well formed and keeps every point inside its leaf. */
  lemma {:induction false} SubdivideKeepsInvariants<P>(t: Tree<P>, criteria: seq<seq<P> -> bool>, fuel: nat, loc: P -> Point)
    requires WellFormed(t) && Located(t, loc)
    ensures WellFormed(Subdivide(t, criteria, fuel, loc)) && Located(Subdivide(t, criteria, fuel, loc), loc)
    decreases fuel
  {
    if fuel > 0 && AnyHolds(criteria, LocalPoints(t)) {
      var s := Split(t, loc);
      SplitKids(t, loc);
      forall i | 0 <= i < 8
        ensures WellFormed(Subdivide(s.kids[i], criteria, fuel - 1, loc))
             && Located(Subdivide(s.kids[i], criteria, fuel - 1, loc), loc)
      {
        SubdivideKeepsInvariants(s.kids[i], criteria, fuel - 1, loc);
      }
    }
  }

  /* ---------------- filter ---------------- */

  /** `filter`, counted one point value at a time. */
  lemma {:induction false} FilterCount<P>(t: Tree<P>, criteria: seq<seq<P> -> bool>, x: P)
    ensures multiset(Points(Filter(t, criteria)))[x] <= multiset(Points(t))[x]
  {
    match t
    case Leaf(_, _) =>
    case Internal(b, kids) =>
      var r := Filter(t, criteria);
      FilterInternal(t, criteria);
      if r.Internal? {
        PointsCount(r, x);
        PointsCount(t, x);
        forall i | 0 <= i < |kids| ensures multiset(Points(r.kids[i]))[x] <= multiset(Points(kids[i]))[x] {
          FilterCount(kids[i], criteria, x);
        }
        SumMono(seq(|r.kids|, i requires 0 <= i < |r.kids| => multiset(Points(r.kids[i]))[x]),
                seq(|kids|, i requires 0 <= i < |kids| => multiset(Points(kids[i]))[x]));
      }
  }

  /** `filter`, counted in points. */
  lemma {:induction false} FilterNPoints<P>(t: Tree<P>, criteria: seq<seq<P> -> bool>)
    ensures NPoints(Filter(t, criteria)) <= NPoints(t)
  {
    match t
    case Leaf(_, _) =>
    case Internal(b, kids) =>
      var r := Filter(t, criteria);
      FilterInternal(t, criteria);
      if r.Internal? {
        forall i | 0 <= i < |kids| ensures NPoints(r.kids[i]) <= NPoints(kids[i]) {
          FilterNPoints(kids[i], criteria);
        }
        SumMono(seq(|r.kids|, i requires 0 <= i < |r.kids| => NPoints(r.kids[i])),
                seq(|kids|, i requires 0 <= i < |kids| => NPoints(kids[i])));
      }
  }

  /** `filter` never adds a point: the surviving points are a sub-multiset of the original ones. */
  lemma FilterShrinks<P>(t: Tree<P>, criteria: seq<seq<P> -> bool>)
    ensures multiset(Points(Filter(t, criteria))) <= multiset(Points(t))
    ensures NPoints(Filter(t, criteria)) <= NPoints(t)
  {
    var after := multiset(Points(Filter(t, criteria)));
    forall x ensures after[x] <= multiset(Points(t))[x] {
      FilterCount(t, criteria, x);
    }
    MultisetSub(after, multiset(Points(t)));
    FilterNPoints(t, criteria);
  }

  /** The children of an internal node after `filter` has been applied to each of them. */
  function FilteredKids<P>(t: Tree<P>, criteria: seq<seq<P> -> bool>): (fk: seq<Tree<P>>)
    requires t.Internal?
  {
    seq(|t.kids|, i requires 0 <= i < |t.kids| => Filter(t.kids[i], criteria))
  }

  /** An internal node survives `filter` exactly when one of its filtered children keeps a point. */
  lemma FilterInternal<P>(t: Tree<P>, criteria: seq<seq<P> -> bool>)
    requires t.Internal?
    ensures var fk := FilteredKids(t, criteria);
      Filter(t, criteria) == if forall i :: 0 <= i < |fk| ==> NPoints(fk[i]) == 0
                             then Leaf(t.box, []) else Internal(t.box, fk)
  {
  }

  /** Applying the same `filter` twice is applying it once. */
  lemma {:induction false} FilterIdempotent<P>(t: Tree<P>, criteria: seq<seq<P> -> bool>)
    ensures Filter(Filter(t, criteria), criteria) == Filter(t, criteria)
  {
    match t
    case Leaf(_, _) =>
    case Internal(b, kids) =>
      var fk := FilteredKids(t, criteria);
      FilterInternal(t, criteria);
      if !(forall i :: 0 <= i < |fk| ==> NPoints(fk[i]) == 0) {
        var r := Internal(b, fk);
        forall i | 0 <= i < |fk| ensures Filter(fk[i], criteria) == fk[i] {
          FilterIdempotent(kids[i], criteria);
        }
        FilterInternal(r, criteria);
        assert FilteredKids(r, criteria) == fk;
      }
  }

  /** Pruning: an internal node becomes a leaf under `filter` exactly when its filtered subtree
      holds no point, and then it is an empty leaf over the same box. */
  lemma FilterCollapsesExactlyWhenEmpty<P>(t: Tree<P>, criteria: seq<seq<P> -> bool>)
    requires t.Internal?
    ensures Filter(t, criteria).Leaf? <==> NPoints(Filter(t, criteria)) == 0
    ensures Filter(t, criteria).Leaf? ==> Filter(t, criteria) == Leaf(t.box, [])
  {
    var fk := FilteredKids(t, criteria);
    FilterInternal(t, criteria);
    var counts := seq(|fk|, i requires 0 <= i < |fk| => NPoints(fk[i]));
    SumZero(counts);
    if !(forall i :: 0 <= i < |fk| ==> NPoints(fk[i]) == 0) {
      var k :| 0 <= k < |fk| && NPoints(fk[k]) != 0;
      assert counts[k] != 0;
      assert NPoints(Internal(t.box, fk)) == Sum(counts);
    }
  }

  /** After `filter` no internal node is left with an empty subtree. */
  lemma {:induction false} FilterPrunes<P>(t: Tree<P>, criteria: seq<seq<P> -> bool>)
    ensures Pruned(Filter(t, criteria))
  {
    match t
    case Leaf(_, _) =>
    case Internal(b, kids) =>
      var fk := FilteredKids(t, criteria);
      FilterInternal(t, criteria);
      if !(forall i :: 0 <= i < |fk| ==> NPoints(fk[i]) == 0) {
        forall i | 0 <= i < |fk| ensures Pruned(fk[i]) {
          FilterPrunes(kids[i], criteria);
        }
        FilterCollapsesExactlyWhenEmpty(t, criteria);
      }
  }

  /** `filter` keeps a tree well formed and keeps every point inside its leaf. */
  lemma {:induction false} FilterKeepsInvariants<P>(t: Tree<P>, criteria: seq<seq<P> -> bool>, loc: P -> Point)
    requires WellFormed(t) && Located(t, loc)
    ensures WellFormed(Filter(t, criteria)) && Located(Filter(t, criteria), loc)
  {
    match t
    case Leaf(_, _) =>
    case Internal(b, kids) =>
      forall i | 0 <= i < |kids|
        ensures WellFormed(Filter(kids[i], criteria)) && Located(Filter(kids[i], criteria), loc)
      {
        FilterKeepsInvariants(kids[i], criteria, loc);
      }
  }

  /* ---------------- map_leaf_points ---------------- */

  /** `map_leaf_points` changes leaf clouds only: every node, box and leaf stays where it was. */
  lemma {:induction false} MapKeepsShape<P>(t: Tree<P>, f: seq<P> -> seq<P>)
    ensures SameShape(t, MapLeaves(t, f))
    ensures NLeaves(MapLeaves(t, f)) == NLeaves(t)
    ensures WellFormed(t) ==> WellFormed(MapLeaves(t, f))
  {
    match t
    case Leaf(_, _) =>
    case Internal(b, kids) =>
      forall i | 0 <= i < |kids|
        ensures SameShape(kids[i], MapLeaves(kids[i], f)) && NLeaves(MapLeaves(kids[i], f)) == NLeaves(kids[i])
             && (WellFormed(kids[i]) ==> WellFormed(MapLeaves(kids[i], f)))
      {
        MapKeepsShape(kids[i], f);
      }
      var m := MapLeaves(t, f);
      assert forall i :: 0 <= i < |kids| ==> m.kids[i] == MapLeaves(kids[i], f);
      assert seq(|m.kids|, i requires 0 <= i < |m.kids| => NLeaves(m.kids[i]))
          == seq(|kids|, i requires 0 <= i < |kids| => NLeaves(kids[i]));
  }

  /** A length-preserving map leaves `n_points` unchanged. */
  lemma {:induction false} MapKeepsCount<P>(t: Tree<P>, f: seq<P> -> seq<P>)
    requires forall c: seq<P> :: |f(c)| == |c|
    ensures NPoints(MapLeaves(t, f)) == NPoints(t)
  {
    match t
    case Leaf(_, _) =>
    case Internal(b, kids) =>
      forall i | 0 <= i < |kids| ensures NPoints(MapLeaves(kids[i], f)) == NPoints(kids[i]) {
        MapKeepsCount(kids[i], f);
      }
      var m := MapLeaves(t, f);
      assert forall i :: 0 <= i < |kids| ==> m.kids[i] == MapLeaves(kids[i], f);
      assert seq(|m.kids|, i requires 0 <= i < |m.kids| => NPoints(m.kids[i]))
          == seq(|kids|, i requires 0 <= i < |kids| => NPoints(kids[i]));
  }

  /** With a map that turns every non-empty cloud into one point (`cloud -> [cloud[0]]`), a
      tree without empty leaves ends with exactly one point per leaf. */
  lemma {:induction false} MapToSingletons<P>(t: Tree<P>, f: seq<P> -> seq<P>)
    requires forall c: seq<P> :: c != [] ==> |f(c)| == 1
    requires NoEmptyLeaf(t)
    ensures NPoints(MapLeaves(t, f)) == NLeaves(MapLeaves(t, f))
  {
    match t
    case Leaf(_, _) =>
    case Internal(b, kids) =>
      forall i | 0 <= i < |kids| ensures NPoints(MapLeaves(kids[i], f)) == NLeaves(MapLeaves(kids[i], f)) {
        MapToSingletons(kids[i], f);
      }
      var m := MapLeaves(t, f);
      assert seq(|m.kids|, i requires 0 <= i < |m.kids| => NPoints(m.kids[i]))
          == seq(|m.kids|, i requires 0 <= i < |m.kids| => NLeaves(m.kids[i]));
  }
}
