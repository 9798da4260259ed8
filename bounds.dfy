/**
 * ProjectedBounds: an axis-aligned rectangle in the projected plane, given by
 * its south-west (minimum) and north-east (maximum) corners. A fresh bounds is
 * "empty": its south-west corner is at (+Infinity, +Infinity) and its
 * north-east corner at (-Infinity, -Infinity), so that the first point it is
 * expanded by becomes both corners.
 *
 * `Rect` is the value of a bounds and carries the arithmetic; the class
 * `ProjectedBounds` is the object that the geometry updates in place.
 */
module Bounds {
  import opened Coords
  import opened Options

  datatype Point = Point(x: Coord, y: Coord)

  datatype Rect = Rect(southWest: Point, northEast: Point) {

    /** Neither axis is inverted: the rectangle has at least one point. */
    predicate NonEmpty() {
      Le(southWest.x, northEast.x) && Le(southWest.y, northEast.y)
    }

    /** The point lies in the rectangle, boundary included. */
    predicate ContainsPoint(p: Point) {
      Le(southWest.x, p.x) && Le(p.x, northEast.x) && Le(southWest.y, p.y) && Le(p.y, northEast.y)
    }

    /** The rectangle after `expandPoint(x, y)`. */
    function ExpandedByPoint(x: Coord, y: Coord): Rect {
      Rect(Point(Min(southWest.x, x), Min(southWest.y, y)), Point(Max(northEast.x, x), Max(northEast.y, y)))
    }

    /** The rectangle after `expand(other)`: the north-east corner of `other`, then its south-west corner. */
    function Expanded(other: Rect): Rect {
      ExpandedByPoint(other.northEast.x, other.northEast.y).ExpandedByPoint(other.southWest.x, other.southWest.y)
    }

    /** The rectangle after `modifyIntersect(other)`; inverted when the two do not overlap. */
    function Intersection(other: Rect): Rect {
      Rect(Point(Max(southWest.x, other.southWest.x), Max(southWest.y, other.southWest.y)),
           Point(Min(northEast.x, other.northEast.x), Min(northEast.y, other.northEast.y)))
    }

    /** `contains(other)`: the corners of `other` lie within this rectangle's, boundary included. */
    predicate Contains(other: Rect): (b: bool)
      ensures other.NonEmpty() ==> (b <==> ContainsPoint(other.southWest) && ContainsPoint(other.northEast))
    {
      Le(other.northEast.x, northEast.x) && Le(other.northEast.y, northEast.y) &&
      Le(southWest.x, other.southWest.x) && Le(southWest.y, other.southWest.y)
    }

    /** `intersects(other)`: no axis separates the two rectangles (comparisons are strict). */
    predicate Intersects(other: Rect): (b: bool)
      ensures !b ==> !Intersection(other).NonEmpty()
      ensures b && NonEmpty() && other.NonEmpty() ==>
        ContainsPoint(Intersection(other).southWest) && other.ContainsPoint(Intersection(other).southWest)
    {
      !(Lt(northEast.x, other.southWest.x) || Lt(northEast.y, other.southWest.y) ||
        Lt(other.northEast.x, southWest.x) || Lt(other.northEast.y, southWest.y))
    }

    /** `toLineString()`: the corners north-west, north-east, south-east, south-west. */
    function ToLineString(): (ring: seq<Point>)
      ensures |ring| == 4 && ring[1] == northEast && ring[3] == southWest
      ensures ring[0].y == ring[1].y && ring[2].y == ring[3].y
      ensures ring[1].x == ring[2].x && ring[3].x == ring[0].x
    {
      [Point(southWest.x, northEast.y), Point(northEast.x, northEast.y),
       Point(northEast.x, southWest.y), Point(southWest.x, southWest.y)]
    }

    /** The value of `reproject(project)`: each corner passed through `project`. */
    function Reprojected(project: (Coord, Coord) -> Point): Rect {
      Rect(project(southWest.x, southWest.y), project(northEast.x, northEast.y))
    }
  }

  /** The value of `new ProjectedBounds()`. */
  const EmptyRect := Rect(Point(PosInf, PosInf), Point(NegInf, NegInf))

  /** The rectangle with infinite extent on both axes. */
  const WholePlane := Rect(Point(NegInf, NegInf), Point(PosInf, PosInf))

  /** An empty bounds expanded by each point of `ps` in turn. */
  function Hull(ps: seq<Point>): Rect {
    if ps == [] then EmptyRect
    else Hull(ps[..|ps| - 1]).ExpandedByPoint(ps[|ps| - 1].x, ps[|ps| - 1].y)
  }

  /** An empty bounds expanded by each rectangle of `rs` in turn. */
  function Union(rs: seq<Rect>): Rect {
    if rs == [] then EmptyRect
    else Union(rs[..|rs| - 1]).Expanded(rs[|rs| - 1])
  }

  // ---------------------------------------------------------------------
  // expandPoint

  /** After `expandPoint(x, y)` the point is inside, and so is the old rectangle. */
  lemma ExpandPointContains(r: Rect, x: Coord, y: Coord)
    ensures r.ExpandedByPoint(x, y).ContainsPoint(Point(x, y))
    ensures r.ExpandedByPoint(x, y).Contains(r)
  {
  }

  /** Every rectangle contained before `expandPoint` is still contained after it. */
  lemma ExpandPointKeepsContained(r: Rect, x: Coord, y: Coord, c: Rect)
    requires r.Contains(c)
    ensures r.ExpandedByPoint(x, y).Contains(c)
  {
  }

  /** `expandPoint` grows the rectangle no more than needed. */
  lemma ExpandPointIsLeast(r: Rect, x: Coord, y: Coord, c: Rect)
    requires c.Contains(r) && c.ContainsPoint(Point(x, y))
    ensures c.Contains(r.ExpandedByPoint(x, y))
  {
  }

  /** Expanding by a point that is already inside changes nothing. */
  lemma ExpandPointInsideIsNoOp(r: Rect, x: Coord, y: Coord)
    requires r.ContainsPoint(Point(x, y))
    ensures r.ExpandedByPoint(x, y) == r
  {
    if Le(r.northEast.x, x) {
      LeAntisymmetric(x, r.northEast.x);
    }
    if Le(r.northEast.y, y) {
      LeAntisymmetric(y, r.northEast.y);
    }
  }

  // ---------------------------------------------------------------------
  // expand

  /** After `expand(other)` both the old rectangle and `other` are contained, whatever `other` is. */
  lemma ExpandedContainsBoth(r: Rect, other: Rect)
    ensures r.Expanded(other).Contains(r)
    ensures r.Expanded(other).Contains(other)
  {
  }

  /** For a non-empty `other`, `expand` yields the least rectangle containing both. */
  lemma ExpandedIsLeast(r: Rect, other: Rect, c: Rect)
    requires other.NonEmpty()
    requires c.Contains(r) && c.Contains(other)
    ensures c.Contains(r.Expanded(other))
  {
  }

  /** Non-empty rectangles can be expanded into each other in either order. */
  lemma ExpandedCommutes(a: Rect, b: Rect)
    requires a.NonEmpty() && b.NonEmpty()
    ensures a.Expanded(b) == b.Expanded(a)
  {
    ExpandedContainsBoth(a, b);
    ExpandedContainsBoth(b, a);
    ExpandedIsLeast(a, b, b.Expanded(a));
    ExpandedIsLeast(b, a, a.Expanded(b));
    ContainsAntisymmetric(a.Expanded(b), b.Expanded(a));
  }

  /** A fresh bounds has no point, and the first point it is expanded by becomes both of its corners. */
  lemma EmptyRectFirstPoint(x: Coord, y: Coord)
    ensures !EmptyRect.NonEmpty() && !EmptyRect.ContainsPoint(Point(x, y))
    ensures EmptyRect.ExpandedByPoint(x, y) == Rect(Point(x, y), Point(x, y))
  {
  }

  /** The fresh, empty bounds expanded by a non-empty rectangle becomes that rectangle. */
  lemma EmptyExpandedIsOther(other: Rect)
    requires other.NonEmpty()
    ensures EmptyRect.Expanded(other) == other
  {
  }

  /**
   * Expanding by the empty bounds does not leave a rectangle unchanged: its
   * infinite corners make the result the whole plane.
   */
  lemma ExpandedByEmptyIsWholePlane(r: Rect)
    ensures r.Expanded(EmptyRect) == WholePlane
  {
  }

  /** Once the whole plane, a bounds stays the whole plane. */
  lemma WholePlaneAbsorbs(other: Rect)
    ensures WholePlane.Expanded(other) == WholePlane
  {
  }

  /** Expanding a non-empty rectangle by itself leaves it unchanged. */
  lemma ExpandedBySelf(r: Rect)
    requires r.NonEmpty()
    ensures r.Expanded(r) == r
  {
    ExpandPointInsideIsNoOp(r, r.northEast.x, r.northEast.y);
    ExpandPointInsideIsNoOp(r, r.southWest.x, r.southWest.y);
  }

  // ---------------------------------------------------------------------
  // modifyIntersect

  /** Intersecting with an equal copy of itself leaves a bounds unchanged. */
  lemma IntersectionIdempotent(r: Rect)
    ensures r.Intersection(r) == r
  {
  }

  /** The intersection lies within both inputs. */
  lemma IntersectionContainedInBoth(a: Rect, b: Rect)
    ensures a.Contains(a.Intersection(b)) && b.Contains(a.Intersection(b))
  {
  }

  /** Every rectangle within both inputs lies within their intersection. */
  lemma IntersectionIsGreatest(a: Rect, b: Rect, c: Rect)
    requires a.Contains(c) && b.Contains(c)
    ensures a.Intersection(b).Contains(c)
  {
  }

  /** A point lies in the intersection exactly when it lies in both inputs. */
  lemma IntersectionPoints(a: Rect, b: Rect, p: Point)
    ensures a.Intersection(b).ContainsPoint(p) <==> a.ContainsPoint(p) && b.ContainsPoint(p)
  {
  }

  lemma IntersectionCommutes(a: Rect, b: Rect)
    ensures a.Intersection(b) == b.Intersection(a)
  {
  }

  // ---------------------------------------------------------------------
  // contains

  /** `contains` is reflexive: it includes the boundary. */
  lemma ContainsReflexive(r: Rect)
    ensures r.Contains(r)
  {
  }

  lemma ContainsTransitive(a: Rect, b: Rect, c: Rect)
    requires a.Contains(b) && b.Contains(c)
    ensures a.Contains(c)
  {
  }

  lemma ContainsAntisymmetric(a: Rect, b: Rect)
    requires a.Contains(b) && b.Contains(a)
    ensures a == b
  {
    LeAntisymmetric(a.northEast.x, b.northEast.x);
    LeAntisymmetric(a.northEast.y, b.northEast.y);
    LeAntisymmetric(a.southWest.x, b.southWest.x);
    LeAntisymmetric(a.southWest.y, b.southWest.y);
  }

  /** For a non-empty `b`, `a.contains(b)` holds exactly when every point of `b` is a point of `a`. */
  lemma ContainsIffEveryPoint(a: Rect, b: Rect)
    requires b.NonEmpty()
    ensures a.Contains(b) <==> forall p :: b.ContainsPoint(p) ==> a.ContainsPoint(p)
  {
    if forall p :: b.ContainsPoint(p) ==> a.ContainsPoint(p) {
      assert b.ContainsPoint(b.southWest) && b.ContainsPoint(b.northEast);
    }
  }

  // ---------------------------------------------------------------------
  // intersects

  lemma IntersectsSymmetric(a: Rect, b: Rect)
    ensures a.Intersects(b) == b.Intersects(a)
  {
  }

  /** For non-empty rectangles, `intersects` holds exactly when they share a point. */
  lemma IntersectsIffCommonPoint(a: Rect, b: Rect)
    requires a.NonEmpty() && b.NonEmpty()
    ensures a.Intersects(b) <==> exists p :: a.ContainsPoint(p) && b.ContainsPoint(p)
  {
    if a.Intersects(b) {
      var p := Point(Max(a.southWest.x, b.southWest.x), Max(a.southWest.y, b.southWest.y));
      assert a.ContainsPoint(p) && b.ContainsPoint(p);
    }
  }

  /** For non-empty rectangles, `intersects` agrees with the intersection being non-empty. */
  lemma IntersectsIffIntersectionNonEmpty(a: Rect, b: Rect)
    requires a.NonEmpty() && b.NonEmpty()
    ensures a.Intersects(b) <==> a.Intersection(b).NonEmpty()
  {
  }

  /** Rectangles that only share an edge intersect; their intersection is that edge. */
  lemma TouchingEdgesIntersect(a: Rect, b: Rect)
    requires a.NonEmpty() && b.NonEmpty()
    requires a.northEast.x == b.southWest.x
    requires a.southWest.y == b.southWest.y && a.northEast.y == b.northEast.y
    ensures a.Intersects(b)
    ensures a.Intersection(b) == Rect(Point(a.northEast.x, a.southWest.y), a.northEast)
  {
  }

  /** A rectangle intersects itself exactly when it is non-empty. */
  lemma IntersectsSelfIffNonEmpty(r: Rect)
    ensures r.Intersects(r) <==> r.NonEmpty()
  {
  }

  // ---------------------------------------------------------------------
  // toLineString and reproject

  /** The ring's second and fourth corners are the north-east and south-west corners, and every corner is inside a non-empty rectangle. */
  lemma ToLineStringCorners(r: Rect)
    ensures |r.ToLineString()| == 4
    ensures r.ToLineString()[0] == Point(r.southWest.x, r.northEast.y)
    ensures r.ToLineString()[1] == r.northEast
    ensures r.ToLineString()[2] == Point(r.northEast.x, r.southWest.y)
    ensures r.ToLineString()[3] == r.southWest
    ensures r.NonEmpty() ==> forall i :: 0 <= i < 4 ==> r.ContainsPoint(r.ToLineString()[i])
  {
  }

  /** The bounds of a non-empty rectangle's ring is the rectangle again. */
  lemma ToLineStringHull(r: Rect)
    requires r.NonEmpty()
    ensures Hull(r.ToLineString()) == r
  {
    var ring := r.ToLineString();
    var sw, ne := r.southWest, r.northEast;
    assert ring[..1][..0] == [];
    assert Hull(ring[..1]) == Rect(ring[0], ring[0]);
    assert ring[..2][..1] == ring[..1];
    assert Hull(ring[..2]) == Rect(Point(sw.x, ne.y), ne);
    assert ring[..3][..2] == ring[..2];
    assert Hull(ring[..3]) == Rect(Point(sw.x, sw.y), ne);
    assert ring[..4][..3] == ring[..3];
  }

  /** Reprojecting the bounds agrees with reprojecting ring corners 3 and 1. */
  lemma ReprojectAgreesWithRing(r: Rect, project: (Coord, Coord) -> Point)
    ensures r.Reprojected(project).southWest == project(r.ToLineString()[3].x, r.ToLineString()[3].y)
    ensures r.Reprojected(project).northEast == project(r.ToLineString()[1].x, r.ToLineString()[1].y)
  {
  }

  /**
   * Reprojecting does not keep the corners in order: a projection that flips
   * the y axis turns a rectangle with height into one whose y axis is inverted.
   */
  lemma ReprojectFlipInverts(r: Rect, project: (Coord, Coord) -> Point)
    requires r.southWest.y.Fin? && r.northEast.y.Fin? && Lt(r.southWest.y, r.northEast.y)
    requires forall x: Coord, y: Coord :: y.Fin? ==> project(x, y) == Point(x, Fin(-y.v))
    ensures !r.Reprojected(project).NonEmpty()
  {
    assert project(r.southWest.x, r.southWest.y).y == Fin(-r.southWest.y.v);
    assert project(r.northEast.x, r.northEast.y).y == Fin(-r.northEast.y.v);
  }

  // ---------------------------------------------------------------------
  // Folds of expandPoint and expand

  /** The hull of a sequence of points contains each of them. */
  lemma {:induction false} HullContainsEach(ps: seq<Point>, i: nat)
    requires i < |ps|
    ensures Hull(ps).ContainsPoint(ps[i])
  {
    var last := ps[|ps| - 1];
    var before := Hull(ps[..|ps| - 1]);
    if i < |ps| - 1 {
      HullContainsEach(ps[..|ps| - 1], i);
      assert before.ExpandedByPoint(last.x, last.y).Contains(before);
    }
  }

  /** Every rectangle containing all the points contains their hull. */
  lemma {:induction false} HullIsLeast(ps: seq<Point>, c: Rect)
    requires forall i :: 0 <= i < |ps| ==> c.ContainsPoint(ps[i])
    ensures c.Contains(Hull(ps))
  {
    if ps != [] {
      HullIsLeast(ps[..|ps| - 1], c);
      ExpandPointIsLeast(Hull(ps[..|ps| - 1]), ps[|ps| - 1].x, ps[|ps| - 1].y, c);
    }
  }

  /** The hull of a non-empty sequence is non-empty and each of its sides is attained by some point. */
  lemma {:induction false} HullSidesAttained(ps: seq<Point>)
    requires ps != []
    ensures Hull(ps).NonEmpty()
    ensures exists i :: 0 <= i < |ps| && Hull(ps).southWest.x == ps[i].x
    ensures exists i :: 0 <= i < |ps| && Hull(ps).southWest.y == ps[i].y
    ensures exists i :: 0 <= i < |ps| && Hull(ps).northEast.x == ps[i].x
    ensures exists i :: 0 <= i < |ps| && Hull(ps).northEast.y == ps[i].y
  {
    var n := |ps| - 1;
    var init := ps[..n];
    var h := Hull(init);
    if init == [] {
      assert Hull(ps) == Rect(ps[n], ps[n]);
    } else {
      HullSidesAttained(init);
      var i0 :| 0 <= i0 < |init| && h.southWest.x == init[i0].x;
      var i1 :| 0 <= i1 < |init| && h.southWest.y == init[i1].y;
      var i2 :| 0 <= i2 < |init| && h.northEast.x == init[i2].x;
      var i3 :| 0 <= i3 < |init| && h.northEast.y == init[i3].y;
      assert ps[i0] == init[i0] && ps[i1] == init[i1] && ps[i2] == init[i2] && ps[i3] == init[i3];
    }
  }

  /** Folding one more rectangle into a union expands the union by it. */
  lemma UnionSnoc(rs: seq<Rect>, r: Rect)
    ensures Union(rs + [r]) == Union(rs).Expanded(r)
  {
    assert (rs + [r])[..|rs|] == rs;
  }

  /** The union of a sequence of rectangles contains each of them. */
  lemma {:induction false} UnionContainsEach(rs: seq<Rect>, i: nat)
    requires i < |rs|
    ensures Union(rs).Contains(rs[i])
  {
    var before := Union(rs[..|rs| - 1]);
    var last := rs[|rs| - 1];
    ExpandedContainsBoth(before, last);
    if i < |rs| - 1 {
      UnionContainsEach(rs[..|rs| - 1], i);
      ContainsTransitive(Union(rs), before, rs[i]);
    }
  }

  /** When every rectangle is non-empty, every rectangle containing them all contains their union. */
  lemma {:induction false} UnionIsLeast(rs: seq<Rect>, c: Rect)
    requires forall i :: 0 <= i < |rs| ==> rs[i].NonEmpty() && c.Contains(rs[i])
    ensures c.Contains(Union(rs))
  {
    if rs != [] {
      UnionIsLeast(rs[..|rs| - 1], c);
      ExpandedIsLeast(Union(rs[..|rs| - 1]), rs[|rs| - 1], c);
    }
  }

  /** One empty rectangle anywhere in the sequence makes the union the whole plane. */
  lemma {:induction false} UnionWithEmptyIsWholePlane(rs: seq<Rect>, i: nat)
    requires i < |rs| && rs[i] == EmptyRect
    ensures Union(rs) == WholePlane
  {
    var before := Union(rs[..|rs| - 1]);
    if i == |rs| - 1 {
      ExpandedByEmptyIsWholePlane(before);
    } else {
      UnionWithEmptyIsWholePlane(rs[..|rs| - 1], i);
      WholePlaneAbsorbs(rs[|rs| - 1]);
    }
  }

  // ---------------------------------------------------------------------
  // The object

  class ProjectedBounds {
    var southWest: Point
    var northEast: Point

    /** The rectangle this bounds currently holds. */
    function Value(): Rect
      reads this
    {
      Rect(southWest, northEast)
    }

    /** `new ProjectedBounds(bounds?)`: the given corners, or the empty bounds. */
    constructor (bounds: Option<Rect>)
      ensures Value() == if bounds.Some? then bounds.value else EmptyRect
    {
      southWest := Point(PosInf, PosInf);
      northEast := Point(NegInf, NegInf);
      if bounds.Some? {
        southWest := Point(bounds.value.southWest.x, bounds.value.southWest.y);
        northEast := Point(bounds.value.northEast.x, bounds.value.northEast.y);
      }
    }

    method ExpandPoint(x: Coord, y: Coord)
      modifies this
      ensures Value() == old(Value()).ExpandedByPoint(x, y)
    {
      southWest := southWest.(x := Min(southWest.x, x));
      northEast := northEast.(x := Max(northEast.x, x));
      southWest := southWest.(y := Min(southWest.y, y));
      northEast := northEast.(y := Max(northEast.y, y));
    }

    /** `expand(bounds)`, given the value of `bounds`. */
    method Expand(bounds: Rect)
      modifies this
      ensures Value() == old(Value()).Expanded(bounds)
    {
      ExpandPoint(bounds.northEast.x, bounds.northEast.y);
      ExpandPoint(bounds.southWest.x, bounds.southWest.y);
    }

    /** `modifyIntersect(bounds)`, given the value of `bounds`. */
    method ModifyIntersect(bounds: Rect)
      modifies this
      ensures Value() == old(Value()).Intersection(bounds)
    {
      southWest := southWest.(x := Max(southWest.x, bounds.southWest.x));
      northEast := northEast.(x := Min(northEast.x, bounds.northEast.x));
      southWest := southWest.(y := Max(southWest.y, bounds.southWest.y));
      northEast := northEast.(y := Min(northEast.y, bounds.northEast.y));
    }

    /** `reproject(project)`: a new bounds; the receiver is not changed. */
    method Reproject(project: (Coord, Coord) -> Point) returns (b: ProjectedBounds)
      ensures fresh(b)
      ensures b.Value() == Value().Reprojected(project)
    {
      b := new ProjectedBounds(Some(Rect(project(southWest.x, southWest.y), project(northEast.x, northEast.y))));
    }
  }
}
