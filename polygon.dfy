/**
 * ProjectedPolygon: one travel-time band. Its line strings are the outer ring
 * first and then the holes in input order; its bounds is an empty bounds
 * expanded by each line string's bounds in that order.
 */
module Polygons {
  import opened Options
  import opened Bounds
  import opened LineStrings

  /** The input of one polygon; `innerBoundary` may be absent. */
  datatype PolygonData = PolygonData(
    travelTime: real,
    area: real,
    outerBoundary: seq<Coordinate>,
    innerBoundary: Option<seq<seq<Coordinate>>>)

  /** The holes of a polygon; an absent list has none. */
  function Holes(data: PolygonData): seq<seq<Coordinate>> {
    if data.innerBoundary.Some? then data.innerBoundary.value else []
  }

  /** The rings of a polygon in the order its line strings are built. */
  function Rings(data: PolygonData): (rings: seq<seq<Coordinate>>)
    ensures |rings| == 1 + |Holes(data)|
    ensures rings[0] == data.outerBoundary
  {
    [data.outerBoundary] + Holes(data)
  }

  /** The line string of each ring, in ring order. */
  function LineStringsOf(rings: seq<seq<Coordinate>>, project: Projection): (ls: seq<LineString>)
    ensures |ls| == |rings|
    ensures forall i :: 0 <= i < |rings| ==> ls[i] == LineStringOf(rings[i], project)
  {
    seq(|rings|, i requires 0 <= i < |rings| => LineStringOf(rings[i], project))
  }

  /** The bounds of each ring, in ring order. */
  function Boxes(rings: seq<seq<Coordinate>>): (rs: seq<Rect>)
    ensures |rs| == |rings|
    ensures forall i :: 0 <= i < |rs| ==> rs[i] == CoordinateBounds(rings[i])
  {
    seq(|rings|, i requires 0 <= i < |rings| => CoordinateBounds(rings[i]))
  }

  /** The bounds a polygon built from `data` ends with. */
  function PolygonBounds(data: PolygonData): Rect {
    Union(Boxes(Rings(data)))
  }

  /**
   * A built polygon. Nothing changes it after construction, so it is a value
   * holding the final value of its bounds.
   */
  datatype Polygon = Polygon(travelTime: real, area: real, lineStrings: seq<LineString>, bounds3857: Rect)
  {
    /** `getOuterBoundary()`. */
    function GetOuterBoundary(): (outer: LineString)
      requires lineStrings != []
      ensures [outer] + GetInnerBoundary() == lineStrings
    {
      lineStrings[0]
    }

    /** `getInnerBoundary()`: every line string after the first. */
    function GetInnerBoundary(): (inner: seq<LineString>)
      ensures |inner| == if lineStrings == [] then 0 else |lineStrings| - 1
    {
      if lineStrings == [] then [] else lineStrings[1..]
    }
  }

  /** The polygon built from `data`. */
  function PolygonOf(data: PolygonData, project: Projection): Polygon {
    Polygon(data.travelTime, data.area, LineStringsOf(Rings(data), project), PolygonBounds(data))
  }

  /** A polygon with the fields of the one built from `data` is that polygon. */
  lemma PolygonOfFields(polygon: Polygon, data: PolygonData, project: Projection)
    requires polygon.travelTime == data.travelTime && polygon.area == data.area
    requires polygon.lineStrings == LineStringsOf(Rings(data), project)
    requires polygon.bounds3857 == PolygonBounds(data)
    ensures polygon == PolygonOf(data, project)
  {
  }

  /** The rings up to `n` fold into the union of their boxes with one more ring. */
  lemma BoxesSnoc(rings: seq<seq<Coordinate>>, n: nat, project: Projection)
    requires n < |rings|
    ensures Union(Boxes(rings[..n + 1])) == Union(Boxes(rings[..n])).Expanded(CoordinateBounds(rings[n]))
    ensures LineStringsOf(rings[..n + 1], project) == LineStringsOf(rings[..n], project) + [LineStringOf(rings[n], project)]
  {
    assert Boxes(rings[..n + 1]) == Boxes(rings[..n]) + [CoordinateBounds(rings[n])];
    UnionSnoc(Boxes(rings[..n]), CoordinateBounds(rings[n]));
  }

  /**
   * The constructor: the outer ring's line string first, then one per hole in
   * input order, expanding a fresh empty bounds by each line string's bounds.
   */
  method NewPolygon(data: PolygonData, project: Projection) returns (polygon: Polygon)
    ensures polygon.travelTime == data.travelTime && polygon.area == data.area
    ensures polygon.lineStrings == LineStringsOf(Rings(data), project)
    ensures polygon.bounds3857 == PolygonBounds(data)
  {
    var bounds := new ProjectedBounds(None);
    var outer := NewLineString(data.outerBoundary, project);
    var lineStrings := [outer];
    bounds.Expand(outer.bounds3857);
    BoxesSnoc(Rings(data), 0, project);
    assert Rings(data)[..0] == [];
    if data.innerBoundary.Some? {
      lineStrings := AddHoles(bounds, lineStrings, data, project);
    } else {
      assert Rings(data)[..1] == Rings(data);
    }
    polygon := Polygon(data.travelTime, data.area, lineStrings, bounds.Value());
  }

  /** The holes loop of the constructor: one line string per hole, each folded into `bounds`. */
  method AddHoles(bounds: ProjectedBounds, lineStrings: seq<LineString>, data: PolygonData, project: Projection)
    returns (result: seq<LineString>)
    requires data.innerBoundary.Some?
    requires lineStrings == LineStringsOf(Rings(data)[..1], project)
    requires bounds.Value() == Union(Boxes(Rings(data)[..1]))
    modifies bounds
    ensures result == LineStringsOf(Rings(data), project)
    ensures bounds.Value() == Union(Boxes(Rings(data)))
  {
    ghost var rings := Rings(data);
    var holes := data.innerBoundary.value;
    result := lineStrings;
    var i := 0;
    while i < |holes|
      invariant 0 <= i <= |holes|
      invariant result == LineStringsOf(rings[..i + 1], project)
      invariant bounds.Value() == Union(Boxes(rings[..i + 1]))
    {
      var lineString := NewLineString(holes[i], project);
      result := result + [lineString];
      bounds.Expand(lineString.bounds3857);
      assert rings[i + 1] == holes[i];
      BoxesSnoc(rings, i + 1, project);
      i := i + 1;
    }
    assert rings[..i + 1] == rings;
  }

  /** The polygon's bounds contains the bounds of each of its rings. */
  lemma PolygonBoundsContainsRings(data: PolygonData)
    ensures forall i :: 0 <= i < |Rings(data)| ==> PolygonBounds(data).Contains(CoordinateBounds(Rings(data)[i]))
  {
    forall i | 0 <= i < |Rings(data)|
      ensures PolygonBounds(data).Contains(CoordinateBounds(Rings(data)[i]))
    {
      UnionContainsEach(Boxes(Rings(data)), i);
    }
  }

  /**
   * When every ring has a coordinate, the polygon's bounds is the tight box of
   * all its coordinates: it contains each of them and lies within every
   * rectangle that does.
   */
  lemma PolygonBoundsTight(data: PolygonData, c: Rect)
    requires forall i :: 0 <= i < |Rings(data)| ==> Rings(data)[i] != []
    ensures forall i, j :: 0 <= i < |Rings(data)| && 0 <= j < |Rings(data)[i]| ==>
      PolygonBounds(data).ContainsPoint(Lift(Rings(data)[i][j]))
    ensures (forall i, j :: 0 <= i < |Rings(data)| && 0 <= j < |Rings(data)[i]| ==> c.ContainsPoint(Lift(Rings(data)[i][j])))
      ==> c.Contains(PolygonBounds(data))
  {
    var rings := Rings(data);
    forall i, j | 0 <= i < |rings| && 0 <= j < |rings[i]|
      ensures PolygonBounds(data).ContainsPoint(Lift(rings[i][j]))
    {
      CoordinateBoundsTight(rings[i]);
      PolygonBoundsContainsRings(data);
    }
    if forall i, j :: 0 <= i < |rings| && 0 <= j < |rings[i]| ==> c.ContainsPoint(Lift(rings[i][j])) {
      forall i | 0 <= i < |rings|
        ensures Boxes(rings)[i].NonEmpty() && c.Contains(Boxes(rings)[i])
      {
        CoordinateBoundsTight(rings[i]);
      }
      UnionIsLeast(Boxes(rings), c);
    }
  }

  /** A ring without coordinates gives the polygon a bounds of infinite extent. */
  lemma PolygonWithEmptyRingIsUnbounded(data: PolygonData, i: nat)
    requires i < |Rings(data)| && Rings(data)[i] == []
    ensures PolygonBounds(data) == WholePlane
  {
    assert Lifted(Rings(data)[i]) == [];
    UnionWithEmptyIsWholePlane(Boxes(Rings(data)), i);
  }

  /**
   * A polygon has one line string per ring; the outer boundary is the one
   * built from `outerBoundary` and the inner boundaries are the holes in
   * input order; travel time and area are the input's.
   */
  lemma BoundariesOfPolygon(data: PolygonData, project: Projection)
    ensures |PolygonOf(data, project).lineStrings| == 1 + |Holes(data)|
    ensures PolygonOf(data, project).travelTime == data.travelTime
    ensures PolygonOf(data, project).area == data.area
    ensures PolygonOf(data, project).GetOuterBoundary() == LineStringOf(data.outerBoundary, project)
    ensures |PolygonOf(data, project).GetInnerBoundary()| == |Holes(data)|
    ensures forall i :: 0 <= i < |Holes(data)| ==>
      PolygonOf(data, project).GetInnerBoundary()[i] == LineStringOf(Holes(data)[i], project)
  {
    var p := PolygonOf(data, project);
    var inner := p.GetInnerBoundary();
    assert inner == p.lineStrings[1..];
    forall i | 0 <= i < |Holes(data)|
      ensures inner[i] == LineStringOf(Holes(data)[i], project)
    {
      assert inner[i] == p.lineStrings[i + 1];
      assert Rings(data)[i + 1] == Holes(data)[i];
    }
  }

  /** A polygon's bounds contains the bounds of every one of its line strings. */
  lemma PolygonContainsLineStrings(data: PolygonData, project: Projection)
    ensures forall i :: 0 <= i < |PolygonOf(data, project).lineStrings| ==>
      PolygonOf(data, project).bounds3857.Contains(PolygonOf(data, project).lineStrings[i].bounds3857)
  {
    PolygonBoundsContainsRings(data);
  }
}
