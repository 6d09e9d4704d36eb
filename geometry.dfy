/** The geometry primitives the octree consumes: points, axis-aligned cubes,
    the containment test and the eight-way split of a cube.
    Coordinates are exact reals, so halving an edge length is exact. */
module Geometry {

  datatype Point = Point(x: real, y: real, z: real)

  function Add(a: Point, b: Point): (r: Point)
  {
    Point(a.x + b.x, a.y + b.y, a.z + b.z)
  }

  /** An axis-aligned cube: its minimum corner and its edge length. */
  datatype Box = Box(corner: Point, edge: real)

  /** The node's `bounding_box`: the minimum corner and the corner plus the edge length on every axis. */
  function BoundingBox(b: Box): (r: (Point, Point))
  {
    (b.corner, Add(b.corner, Point(b.edge, b.edge, b.edge)))
  }

  /** `point_is_inside_box(q, (lo, hi))` for any axis-aligned box given by its minimum and
      maximum corners. Containment is half-open: the minimum faces belong to the box, the maximum
      faces do not. */
  predicate InsideRange(q: Point, lo: Point, hi: Point)
  {
    lo.x <= q.x < hi.x && lo.y <= q.y < hi.y && lo.z <= q.z < hi.z
  }

  /** Containment in a node's cube, through its `bounding_box`; a point on a face shared by two
      siblings belongs to exactly one of them. */
  predicate Inside(q: Point, b: Box)
  {
    var (lo, hi) := BoundingBox(b);
    InsideRange(q, lo, hi)
  }

  /** The corner offsets of the eight children, in the order of
      `itertools.product([0, h], repeat=3)`: the z offset varies fastest. */
  function Offsets(h: real): (r: seq<Point>)
    ensures |r| == 8
  {
    [ Point(0.0, 0.0, 0.0), Point(0.0, 0.0, h), Point(0.0, h, 0.0), Point(0.0, h, h),
      Point(h, 0.0, 0.0), Point(h, 0.0, h), Point(h, h, 0.0), Point(h, h, h) ]
  }

  /** The box of the `i`-th child: half the edge length, the corner moved by the `i`-th offset. */
  function ChildBox(b: Box, i: nat): (r: Box)
    requires i < 8
  {
    Box(Add(b.corner, Offsets(b.edge / 2.0)[i]), b.edge / 2.0)
  }

  /** The index of the child whose box holds `q`: one bit per axis, x the most significant. */
  function ChildIndex(b: Box, q: Point): (i: nat)
    ensures i < 8
  {
    var h := b.edge / 2.0;
    (if q.x < b.corner.x + h then 0 else 4)
    + (if q.y < b.corner.y + h then 0 else 2)
    + (if q.z < b.corner.z + h then 0 else 1)
  }

  /** Every child offset has each coordinate in {0, h}, and for h != 0 the eight offsets are
      pairwise distinct, so they are exactly the eight combinations of {0, h}^3. */
  lemma OffsetsAreCubeCorners(h: real)
    ensures forall i :: 0 <= i < 8 ==>
      Offsets(h)[i].x in {0.0, h} && Offsets(h)[i].y in {0.0, h} && Offsets(h)[i].z in {0.0, h}
    ensures h != 0.0 ==> forall i, j :: 0 <= i < j < 8 ==> Offsets(h)[i] != Offsets(h)[j]
  {
  }

  /** The partition invariant: the eight children of a cube with positive edge length tile it
      with neither gaps nor overlaps. A point lies in child `i` exactly when it lies in the
      parent and `i` is its child index. */
  lemma {:induction false} ChildrenPartition(b: Box, q: Point)
    requires b.edge > 0.0
    ensures forall i :: 0 <= i < 8 ==> (Inside(q, ChildBox(b, i)) <==> Inside(q, b) && i == ChildIndex(b, q))
  {
    var h := b.edge / 2.0;
    var o := Offsets(h);
    forall i | 0 <= i < 8
      ensures Inside(q, ChildBox(b, i)) <==> Inside(q, b) && i == ChildIndex(b, q)
    {
      assert o[i].x == (if i >= 4 then h else 0.0);
      assert o[i].y == (if i % 4 >= 2 then h else 0.0);
      assert o[i].z == (if i % 2 == 1 then h else 0.0);
    }
  }
}
